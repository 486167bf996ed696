/** The call stack of one thread: frame pointer chasing, with two special cases for the top function. */
module StackWalk {
  import opened Bytes
  import opened DataAccess
  import opened Layout
  import opened ModuleImage
  import opened Modules
  import MemoryRegions
  import Unwind

  // ---------------------------------------------------------------- thread state

  const GPR_SIZE := 272  // general purpose registers
  const EXC_SIZE := 16   // exception registers

  type gpr_bytes = s: seq<byte> | |s| == GPR_SIZE witness Zeros(GPR_SIZE)
  type exc_bytes = s: seq<byte> | |s| == EXC_SIZE witness Zeros(EXC_SIZE)

  /** The register sets of a thread as they follow the command header: kind, word count, words. */
  function MakeState(gpr: gpr_bytes, exc: exc_bytes): thread_state {
    LE32(6) + LE32(GPR_SIZE / 4) + gpr + LE32(7) + LE32(EXC_SIZE / 4) + exc
  }

  /** The two register sets as a reader of the thread command takes them, if kinds and word counts are right. */
  function ReadThreadState(s: thread_state): Option<(gpr_bytes, exc_bytes)> {
    if Field32(s, 0) == 6 && Field32(s, 4) == 68 && Field32(s, 280) == 7 && Field32(s, 284) == 4
    then Some((Slice(s, 8, GPR_SIZE), Slice(s, 288, EXC_SIZE)))
    else None
  }

  lemma ThreadStateRoundTrip(gpr: gpr_bytes, exc: exc_bytes)
    ensures ReadThreadState(MakeState(gpr, exc)) == Some((gpr, exc))
  {
    hide Field32, MakeState;
    var s := MakeState(gpr, exc);
    StateParts(gpr, exc);
    Field32Of(6, s, 0);
    Field32Of(68, s, 4);
    Field32Of(7, s, 280);
    Field32Of(4, s, 284);
  }

  lemma StateParts(gpr: gpr_bytes, exc: exc_bytes)
    ensures var s := MakeState(gpr, exc);
            && Slice(s, 0, 4) == LE32(6) && Slice(s, 4, 4) == LE32(68) && Slice(s, 8, GPR_SIZE) == gpr
            && Slice(s, 280, 4) == LE32(7) && Slice(s, 284, 4) == LE32(4) && Slice(s, 288, EXC_SIZE) == exc
  {
    hide LE32;
  }

  datatype Registers = Registers(fp: uint64, lr: uint64, sp: uint64, pc: uint64, esr: uint32)

  /** The registers the program uses: x0 to x28 come first, then fp, lr, sp and pc. */
  function RegistersOf(gpr: gpr_bytes, exc: exc_bytes): Registers {
    Registers(Field64(gpr, 232), Field64(gpr, 240), Field64(gpr, 248), Field64(gpr, 256), Field32(exc, 8))
  }

  /** The registers as the kernel lays them out: x0 to x28, fp, lr, sp, pc, and the status register. */
  function EncodeGpr(x: seq<uint64>, fp: uint64, lr: uint64, sp: uint64, pc: uint64, cpsr: uint32): gpr_bytes
    requires |x| == 29
  {
    XRegistersSize(x);
    Flatten(XRegisters(x)) + LE64(fp) + LE64(lr) + LE64(sp) + LE64(pc) + LE32(cpsr) + LE32(0)
  }

  function XRegisters(x: seq<uint64>): (r: seq<seq<byte>>)
    ensures |r| == |x|
  {
    seq(|x|, i requires 0 <= i < |x| => LE64(x[i]))
  }

  lemma XRegistersSize(x: seq<uint64>)
    ensures |Flatten(XRegisters(x))| == 8 * |x|
  {
    hide LE64;
    EqualWidths(XRegisters(x), 8);
  }

  /** Fault address, syndrome and exception number. */
  function EncodeExc(far: uint64, esr: uint32, exception: uint32): exc_bytes {
    LE64(far) + LE32(esr) + LE32(exception)
  }

  lemma RegistersRoundTrip(x: seq<uint64>, fp: uint64, lr: uint64, sp: uint64, pc: uint64, cpsr: uint32,
                           far: uint64, esr: uint32, exception: uint32)
    requires |x| == 29
    ensures RegistersOf(EncodeGpr(x, fp, lr, sp, pc, cpsr), EncodeExc(far, esr, exception))
            == Registers(fp, lr, sp, pc, esr)
  {
    hide Field32, Field64, LE32, LE64, Flatten, XRegisters;
    var gpr, exc := EncodeGpr(x, fp, lr, sp, pc, cpsr), EncodeExc(far, esr, exception);
    XRegistersSize(x);
    assert Slice(gpr, 232, 8) == LE64(fp) && Slice(gpr, 240, 8) == LE64(lr);
    assert Slice(gpr, 248, 8) == LE64(sp) && Slice(gpr, 256, 8) == LE64(pc) && Slice(exc, 8, 4) == LE32(esr);
    Field64Of(fp, gpr, 232);
    Field64Of(lr, gpr, 240);
    Field64Of(sp, gpr, 248);
    Field64Of(pc, gpr, 256);
    Field32Of(esr, exc, 8);
  }

  // ---------------------------------------------------------------- does the top function have a frame?

  /** Instruction abort or data abort. */
  predicate ControlTransferRelated(esr: uint32) {
    var exceptionClass := esr / 0x400_0000 % 0x40;
    exceptionClass == 0x20 || exceptionClass == 0x24
  }

  /** BL, BLR, or one of the authenticated branches with link. */
  predicate IsBranchWithLink(w: uint32) {
    || w / 0x400_0000 % 0x40 == 0x25
    || w / 0x400 % 0x40_0000 == 0x35_8FC0
    || AuthenticatedOpcode(w / 0x800 % 0x20_0000) == 0x1A_C7E1
  }

  /** The opcode without its bit 13, which tells the two forms of an authenticated branch apart. */
  function AuthenticatedOpcode(opcode: nat): nat {
    opcode - opcode / 0x2000 % 2 * 0x2000
  }

  predicate IsSupervisorCall(w: uint32) {
    w / 0x20_0000 % 0x800 == 0x6A0
  }

  lemma AuthenticatedRange(w: uint32)
    ensures AuthenticatedOpcode(w / 0x800 % 0x20_0000) == 0x1A_C7E1
            <==> 0xD63F_0800 <= w < 0xD63F_1000 || 0xD73F_0800 <= w < 0xD73F_1000
  {
    var opcode := w / 0x800;
    assert opcode < 0x20_0000 && opcode % 0x20_0000 == opcode;
    var high := opcode / 0x2000;
    if AuthenticatedOpcode(opcode) == 0x1A_C7E1 {
      assert high == 0xD6 || high == 0xD7;
    }
  }

  lemma PrefixRanges(w: uint32)
    ensures w / 0x400_0000 % 0x40 == 0x25 <==> 0x9400_0000 <= w < 0x9800_0000
    ensures w / 0x400 % 0x40_0000 == 0x35_8FC0 <==> 0xD63F_0000 <= w < 0xD63F_0400
  {
    assert w / 0x400_0000 < 0x40 && w / 0x400 < 0x40_0000;
  }

  /** The tests pick whole ranges of instruction words and syndromes: a fixed prefix with any operand behind it. */
  lemma TestsPickRanges(w: uint32)
    ensures IsBranchWithLink(w)
            <==> 0x9400_0000 <= w < 0x9800_0000      // BL
                 || 0xD63F_0000 <= w < 0xD63F_0400   // BLR
                 || 0xD63F_0800 <= w < 0xD63F_1000   // BLRAAZ and BLRABZ
                 || 0xD73F_0800 <= w < 0xD73F_1000   // BLRAA and BLRAB
    ensures IsSupervisorCall(w) <==> 0xD400_0000 <= w < 0xD420_0000
    ensures ControlTransferRelated(w) <==> 0x8000_0000 <= w < 0x8400_0000 || 0x9000_0000 <= w < 0x9400_0000
  {
    hide AuthenticatedOpcode;
    AuthenticatedRange(w);
    PrefixRanges(w);
  }

  /** A branch with link right before the address. */
  predicate PreviousIsBranchWithLink(mem: Memory, ip: uint64) {
    match ReadWord32(mem, Sub64(ip, 4))
    case None => false
    case Some(w) => IsBranchWithLink(w)
  }

  predicate PreviousIsSupervisorCall(mem: Memory, ip: uint64) {
    match ReadWord32(mem, Sub64(ip, 4))
    case None => false
    case Some(w) => IsSupervisorCall(w)
  }

  /** Compact unwind information about the function an address lies in. */
  function FrameLookup(mem: Memory, modules: seq<ModuleInfo>, pc: uint64): Unwind.LookupResult
    requires ListOk(modules)
  {
    match Find(modules, pc)
    case None => Unwind.Unknown
    case Some(k) =>
      assert ModuleOk(modules[k]);
      var cs := ImageCommands(modules[k].headerAndLoadCommands);
      if UnwindSection(cs) == 0 || LastText(cs).None? then Unwind.Unknown
      else
        var base := Add64(UnwindSection(cs), Sub64(modules[k].loadAddress, LastText(cs).value));
        Unwind.ResultOf(Unwind.LookupEncoding(mem, base, Sub64(pc, modules[k].loadAddress) % UINT32_MOD))
  }

  predicate NotExecutable(regions: seq<MemoryRegions.RegionInfo>, a: uint64)
    requires MemoryRegions.RegionsOk(regions)
  {
    match MemoryRegions.FindRegion(regions, a)
    case None => true
    case Some(r) => r.prot / MemoryRegions.MEM_PROT_EXECUTE % 2 == 0
  }

  /** The top function has no stack frame of its own, so the link register holds its return address. */
  predicate TopIsFrameless(mem: Memory, regions: seq<MemoryRegions.RegionInfo>, modules: seq<ModuleInfo>, r: Registers)
    requires ListOk(modules) && MemoryRegions.RegionsOk(regions)
  {
    || (ControlTransferRelated(r.esr) && NotExecutable(regions, r.pc) && PreviousIsBranchWithLink(mem, r.lr))
    || (match FrameLookup(mem, modules, r.pc)
        case HasFrame => false
        case Frameless => true
        case Unknown => PreviousIsSupervisorCall(mem, r.pc))
  }

  /** The address four bytes before another one. */
  function Before(ip: uint64): uint64 {
    if ip >= 4 then ip - 4 else UINT64_MOD + ip - 4
  }

  /** A call can be read right before the address: BL, BLR or one of its authenticated forms. */
  predicate CallBefore(mem: Memory, ip: uint64) {
    Readable(mem, Before(ip), 4)
    && var w := Word(mem, Before(ip));
       0x9400_0000 <= w < 0x9800_0000 || 0xD63F_0000 <= w < 0xD63F_0400 || 0xD63F_0800 <= w < 0xD63F_1000
       || 0xD73F_0800 <= w < 0xD73F_1000
  }

  predicate SupervisorCallBefore(mem: Memory, ip: uint64) {
    Readable(mem, Before(ip), 4) && 0xD400_0000 <= Word(mem, Before(ip)) < 0xD420_0000
  }

  /**
   The top function counts as frameless exactly when: an instruction or data abort happened at a pc outside of
   executable memory, and lr comes from a call; or the unwind table says so; or it says nothing, and pc comes
   from a supervisor call.
   */
  lemma FramelessIff(mem: Memory, regions: seq<MemoryRegions.RegionInfo>, modules: seq<ModuleInfo>, r: Registers)
    requires ListOk(modules) && MemoryRegions.RegionsOk(regions)
    ensures TopIsFrameless(mem, regions, modules, r)
            <==> ((0x8000_0000 <= r.esr < 0x8400_0000 || 0x9000_0000 <= r.esr < 0x9400_0000)
                  && (MemoryRegions.FindRegion(regions, r.pc).Some? ==>
                        MemoryRegions.FindRegion(regions, r.pc).value.prot / 4 % 2 == 0)
                  && CallBefore(mem, r.lr))
                 || FrameLookup(mem, modules, r.pc) == Unwind.Frameless
                 || (FrameLookup(mem, modules, r.pc) == Unwind.Unknown && SupervisorCallBefore(mem, r.pc))
  {
    hide FrameLookup, ReadWord32, IsBranchWithLink, IsSupervisorCall, ControlTransferRelated, Word, Low64, ListOk;
    TestsPickRanges(r.esr);
    InstructionBefore(mem, r.lr);
    InstructionBefore(mem, r.pc);
  }

  lemma InstructionBefore(mem: Memory, ip: uint64)
    ensures PreviousIsBranchWithLink(mem, ip) <==> CallBefore(mem, ip)
    ensures PreviousIsSupervisorCall(mem, ip) <==> SupervisorCallBefore(mem, ip)
  {
    hide ReadWord32, IsBranchWithLink, IsSupervisorCall, Word;
    assert Sub64(ip, 4) == Before(ip);
    WordRead(mem, Before(ip));
    if Readable(mem, Before(ip), 4) {
      TestsPickRanges(Word(mem, Before(ip)));
    }
  }

  /**
   The lookup for a module reads the unwind table of its image where the image lies: at the address the image
   prefers, moved by the same distance as its (last) __TEXT segment.
   */
  lemma FrameLookupRefinesFlat(mem: Memory, modules: seq<ModuleInfo>, pc: uint64, k: nat, text: uint64, base: uint64,
                               t: Unwind.UnwindTable)
    requires ListOk(modules) && Find(modules, pc) == Some(k)
    requires ModuleOk(modules[k])
    requires var cs := ImageCommands(modules[k].headerAndLoadCommands);
             && LastText(cs) == Some(text) && UnwindSection(cs) != 0
             && (base - UnwindSection(cs) - (modules[k].loadAddress - text)) % UINT64_MOD == 0
    requires Unwind.Stored(mem, base, t) && Unwind.WellFormed(t) && Unwind.Tight(t)
    ensures modules[k].loadAddress <= pc
    ensures FrameLookup(mem, modules, pc)
            == Unwind.FlatResult(Unwind.Flat(t.common, t.rows), (pc - modules[k].loadAddress) % UINT32_MOD)
  {
    hide ImageCommands, LastText, UnwindSection, Unwind.Stored, Unwind.WellFormed, Unwind.Tight, Unwind.LookupEncoding,
         Unwind.Flat, Unwind.FlatResult, Unwind.ResultOf, ListOk, WellFormedImage;
    FoundStartsBelow(modules, pc, k);
    var section := UnwindSection(ImageCommands(modules[k].headerAndLoadCommands));
    Moved(section, modules[k].loadAddress, text, base);
    Unwind.LookupRefinesFlat(mem, base, t, (pc - modules[k].loadAddress) % UINT32_MOD);
  }

  lemma FoundStartsBelow(modules: seq<ModuleInfo>, pc: uint64, k: nat)
    requires ListOk(modules) && Find(modules, pc) == Some(k)
    ensures modules[k].loadAddress <= pc
  {
    hide WellFormedImage;
    assert ModuleOk(modules[k]);
  }

  lemma Moved(section: uint64, loadAddress: uint64, text: uint64, base: uint64)
    requires (base - section - (loadAddress - text)) % UINT64_MOD == 0
    ensures base == Add64(section, Sub64(loadAddress, text))
  {
    hide Low64;
    var slide: nat := Sub64(loadAddress, text);
    var n := (base - section - (loadAddress - text)) / UINT64_MOD;
    assert base == section + (loadAddress - text) + n * UINT64_MOD;
    Low64IsModulo(section + slide);
    assert base == section + slide || base == section + slide - UINT64_MOD;
  }

  method LookupStackFrameForPC(mem: Memory, list: ModuleList, pc: uint64) returns (r: Unwind.LookupResult)
    requires list.Valid()
    ensures r == FrameLookup(mem, list.modules, pc)
  {
    hide ImageCommands, Find, Unwind.LookupEncoding, UnwindSection, LastText, Keys;
    var k := list.GetModuleInfoForAddress(pc);
    if k.None? {
      return Unwind.Unknown;
    }
    var m := list.modules[k.value];
    assert ModuleOk(m);
    var unwindInfoAddr, text := FindUnwindSection(m.headerAndLoadCommands);
    if unwindInfoAddr == 0 || text.None? {
      return Unwind.Unknown;
    }
    var slide := Sub64(m.loadAddress, text.value);
    var unwindInfoLoadAddr := Add64(unwindInfoAddr, slide);
    r := Unwind.LookupUnwindInfo(mem, unwindInfoLoadAddr, Sub64(pc, m.loadAddress) % UINT32_MOD);
  }

  /** First the exception class and the instruction before the link register, then the unwind information. */
  method HasNoStackFrame(mem: Memory, regions: MemoryRegions.MemoryRegionList, list: ModuleList, r: Registers)
    returns (frameless: bool)
    requires list.Valid() && MemoryRegions.RegionsOk(regions.regions)
    ensures frameless == TopIsFrameless(mem, regions.regions, list.modules, r)
  {
    hide FrameLookup, ControlTransferRelated, PreviousIsBranchWithLink, PreviousIsSupervisorCall, ListOk;
    frameless := false;
    if ControlTransferRelated(r.esr) {
      var region := regions.GetRegionInfoForAddress(r.pc);
      if region.None? || region.value.prot / MemoryRegions.MEM_PROT_EXECUTE % 2 == 0 {
        frameless := PreviousIsBranchWithLink(mem, r.lr);
      }
    }
    if !frameless {
      var lookup := LookupStackFrameForPC(mem, list, r.pc);
      if lookup == Unwind.Unknown && PreviousIsSupervisorCall(mem, r.pc) {
        lookup := Unwind.Frameless;
      }
      frameless := lookup == Unwind.Frameless;
    }
  }

  // ---------------------------------------------------------------- the frame chain

  /** A word of memory, or 0 where it cannot be read. */
  function Deref(mem: Memory, p: uint64): uint64 {
    match ReadProcessMemory(mem, p, 8)
    case None => 0
    case Some(b) => Field64(b, 0)
  }

  /** The 8 bytes at an address as a number, or 0 where they cannot be read. */
  function QuadOrZero(mem: Memory, a: uint64): uint64 {
    if Readable(mem, a, 8) then Quad(mem, a) else 0
  }

  lemma DerefMeans(mem: Memory, p: uint64)
    ensures Deref(mem, p) == QuadOrZero(mem, p)
  {
    hide Quad, Field64;
    if Readable(mem, p, 8) {
      FieldsRead(mem, p, 8, 0);
    }
  }

  /** The chain of saved frame pointers from fp on has n links before the one that is 0. */
  predicate ChainEnds(mem: Memory, fp: uint64, n: nat)
    decreases n
  {
    if Deref(mem, fp) == 0 then n == 0 else n > 0 && ChainEnds(mem, Deref(mem, fp), n - 1)
  }

  /** The return addresses stored in the first n frames of the chain. */
  function ReturnAddresses(mem: Memory, fp: uint64, n: nat, strip: uint64 -> uint64): seq<uint64>
    decreases n
  {
    if n == 0 then [] else [strip(Deref(mem, Add64(fp, 8)))] + ReturnAddresses(mem, Deref(mem, fp), n - 1, strip)
  }

  function CallStack(mem: Memory, r: Registers, frameless: bool, n: nat, strip: uint64 -> uint64): seq<uint64> {
    if r.fp == 0 then []
    else [strip(r.pc)] + (if frameless then [strip(r.lr)] else []) + ReturnAddresses(mem, r.fp, n, strip)
  }

  lemma {:induction false} ReturnAddressAt(mem: Memory, fp: uint64, n: nat, strip: uint64 -> uint64, k: nat)
    requires k < n == |ReturnAddresses(mem, fp, n, strip)|
    ensures ReturnAddresses(mem, fp, n, strip)[k] == strip(QuadOrZero(mem, Add64(Nth(mem, fp, k), 8)))
    decreases n
  {
    hide Deref, QuadOrZero, Low64;
    DerefMeans(mem, Add64(fp, 8));
    if k > 0 {
      ReturnAddressAt(mem, Deref(mem, fp), n - 1, strip, k - 1);
      NthShift(mem, fp, k - 1);
    }
  }

  lemma {:induction false} ReturnAddressCount(mem: Memory, fp: uint64, n: nat, strip: uint64 -> uint64)
    ensures |ReturnAddresses(mem, fp, n, strip)| == n
    decreases n
  {
    hide Deref;
    if n > 0 {
      ReturnAddressCount(mem, Deref(mem, fp), n - 1, strip);
    }
  }

  /**
   `result` starts with pc and, below a frameless function, lr; behind them comes the word above each of the
   first n saved frame pointers.
   */
  predicate IsWalk(result: seq<uint64>, mem: Memory, r: Registers, frameless: bool, n: nat, strip: uint64 -> uint64) {
    var first := if frameless then 2 else 1;
    && |result| == first + n && result[0] == strip(r.pc) && (frameless ==> result[1] == strip(r.lr))
    && forall k :: 0 <= k < n ==> result[first + k] == strip(QuadOrZero(mem, Add64(Nth(mem, r.fp, k), 8)))
  }

  lemma CallStackIsWalk(mem: Memory, r: Registers, frameless: bool, n: nat, strip: uint64 -> uint64)
    requires r.fp != 0
    ensures IsWalk(CallStack(mem, r, frameless, n, strip), mem, r, frameless, n, strip)
  {
    hide Nth, QuadOrZero, Low64, ReturnAddresses;
    var rest := ReturnAddresses(mem, r.fp, n, strip);
    ReturnAddressCount(mem, r.fp, n, strip);
    forall k | 0 <= k < n ensures rest[k] == strip(QuadOrZero(mem, Add64(Nth(mem, r.fp, k), 8))) {
      ReturnAddressAt(mem, r.fp, n, strip, k);
    }
  }

  /** No link of the chain up to the n-th is 0. */
  predicate LinksUpTo(mem: Memory, fp: uint64, n: nat) {
    forall k :: 0 < k <= n ==> Nth(mem, fp, k) != 0
  }

  lemma LinksShift(mem: Memory, fp: uint64, n: nat)
    requires n > 0
    ensures LinksUpTo(mem, fp, n) <==> Deref(mem, fp) != 0 && LinksUpTo(mem, Deref(mem, fp), n - 1)
  {
    hide Deref;
    forall k: nat ensures Nth(mem, Deref(mem, fp), k) == Nth(mem, fp, k + 1) {
      NthShift(mem, fp, k);
    }
    assert Nth(mem, fp, 1) == Deref(mem, fp);
    if Deref(mem, fp) != 0 && LinksUpTo(mem, Deref(mem, fp), n - 1) {
      forall k | 0 < k <= n ensures Nth(mem, fp, k) != 0 {
        assert k > 1 ==> Nth(mem, Deref(mem, fp), k - 1) == Nth(mem, fp, (k - 1) + 1);
      }
    }
  }

  /** Each link is the word at the one before, and the chain ends at the first link whose word is 0 or unreadable. */
  lemma {:induction false} ChainEndsIff(mem: Memory, fp: uint64, n: nat)
    ensures forall k: nat :: Nth(mem, fp, k + 1) == QuadOrZero(mem, Nth(mem, fp, k))
    ensures ChainEnds(mem, fp, n) <==> Nth(mem, fp, n + 1) == 0 && LinksUpTo(mem, fp, n)
    decreases n
  {
    hide Deref, QuadOrZero;
    forall k: nat ensures Nth(mem, fp, k + 1) == QuadOrZero(mem, Nth(mem, fp, k)) {
      DerefMeans(mem, Nth(mem, fp, k));
    }
    assert Nth(mem, fp, 1) == Deref(mem, fp);
    if n > 0 {
      LinksShift(mem, fp, n);
      NthShift(mem, fp, n);
      if Deref(mem, fp) != 0 {
        ChainEndsIff(mem, Deref(mem, fp), n - 1);
      }
    }
  }

  /** A stack frame: the saved frame pointer at an address, and the return address above it. */
  datatype Frame = Frame(at: uint64, returnAddress: uint64)

  /** Where the frame pointer of the first of these frames points, if `last` follows behind them. */
  function FirstFrame(frames: seq<Frame>, last: uint64): uint64 {
    if frames == [] then last else frames[0].at
  }

  /** The frames lie in memory, each pointing to the next one, and the last pointer leads to no further frame. */
  predicate FramesStored(mem: Memory, frames: seq<Frame>, last: uint64)
    decreases |frames|
  {
    if frames == [] then last != 0 && (Readable(mem, last, 8) ==> Quad(mem, last) == 0)
    else
      && frames[0].at != 0 && frames[0].at + 16 <= UINT64_MOD && Readable(mem, frames[0].at, 16)
      && Quad(mem, frames[0].at) == FirstFrame(frames[1..], last)
      && Quad(mem, frames[0].at + 8) == frames[0].returnAddress
      && FramesStored(mem, frames[1..], last)
  }

  /** Frames that have been laid out in memory are read back: the walk gives their return addresses in order. */
  lemma {:induction false} FramesReadBack(mem: Memory, frames: seq<Frame>, last: uint64, strip: uint64 -> uint64)
    requires FramesStored(mem, frames, last)
    ensures FirstFrame(frames, last) != 0
    ensures ChainEnds(mem, FirstFrame(frames, last), |frames|)
    ensures ReturnAddresses(mem, FirstFrame(frames, last), |frames|, strip)
            == seq(|frames|, i requires 0 <= i < |frames| => strip(frames[i].returnAddress))
    decreases |frames|
  {
    hide Deref, Quad;
    DerefMeans(mem, FirstFrame(frames, last));
    if frames != [] {
      FramesReadBack(mem, frames[1..], last, strip);
      DerefMeans(mem, frames[0].at + 8);
      assert Add64(frames[0].at, 8) == frames[0].at + 8;
    }
  }

  /** The whole call stack of a thread whose frames have been laid out in memory. */
  lemma StackReadsBack(mem: Memory, r: Registers, frameless: bool, frames: seq<Frame>, last: uint64,
                       strip: uint64 -> uint64)
    requires FramesStored(mem, frames, last) && r.fp == FirstFrame(frames, last)
    ensures ChainEnds(mem, r.fp, |frames|)
    ensures CallStack(mem, r, frameless, |frames|, strip)
            == [strip(r.pc)] + (if frameless then [strip(r.lr)] else [])
               + seq(|frames|, i requires 0 <= i < |frames| => strip(frames[i].returnAddress))
  {
    hide FramesStored, ChainEnds, ReturnAddresses;
    FramesReadBack(mem, frames, last, strip);
  }

  lemma {:induction false} ChainLengthIsUnique(mem: Memory, fp: uint64, m: nat, n: nat)
    requires ChainEnds(mem, fp, m) && ChainEnds(mem, fp, n)
    ensures m == n
    decreases n
  {
    if Deref(mem, fp) != 0 {
      ChainLengthIsUnique(mem, Deref(mem, fp), m - 1, n - 1);
    }
  }

  /** Stripping pointer authentication bits is left open: `strip` may be any function. */
  method WalkStack(mem: Memory, regions: MemoryRegions.MemoryRegionList, list: ModuleList, r: Registers,
                   strip: uint64 -> uint64) returns (result: seq<uint64>)
    requires list.Valid() && MemoryRegions.RegionsOk(regions.regions)
    requires r.fp == 0 || exists n: nat :: ChainEnds(mem, r.fp, n)
    ensures forall n: nat :: r.fp == 0 || ChainEnds(mem, r.fp, n) ==>
              result == CallStack(mem, r, TopIsFrameless(mem, regions.regions, list.modules, r), n, strip)
    ensures r.fp == 0 ==> result == []
    ensures forall n: nat :: r.fp != 0 && ChainEnds(mem, r.fp, n) ==>
              IsWalk(result, mem, r, TopIsFrameless(mem, regions.regions, list.modules, r), n, strip)
  {
    hide TopIsFrameless, Deref, IsWalk;
    result := [];
    if r.fp == 0 {
      return;
    }
    result := result + [strip(r.pc)];
    var topPCNoStackFrame := HasNoStackFrame(mem, regions, list, r);
    ghost var n: nat :| ChainEnds(mem, r.fp, n);
    ghost var left, top := n, result + if topPCNoStackFrame then [strip(r.lr)] else [];
    var prevBasePointer: uint64, frameIndex: nat := r.fp, 0;
    while true
      invariant ChainEnds(mem, prevBasePointer, left) && prevBasePointer != 0
      invariant if topPCNoStackFrame && frameIndex == 0
                then result == [strip(r.pc)] && left == n && prevBasePointer == r.fp
                else result + ReturnAddresses(mem, prevBasePointer, left, strip) == top + ReturnAddresses(mem, r.fp, n, strip)
      decreases left, if topPCNoStackFrame && frameIndex == 0 then 1 else 0
    {
      var special := topPCNoStackFrame && frameIndex == 0;
      var nextInstructionPointer := if special then r.lr else Deref(mem, Add64(prevBasePointer, 8));
      var nextBasePointer := if special then prevBasePointer else Deref(mem, prevBasePointer);
      if nextBasePointer == 0 {
        break;
      }
      ghost var before := result;
      result := result + [strip(nextInstructionPointer)];
      if !special {
        assert before + ([strip(nextInstructionPointer)] + ReturnAddresses(mem, nextBasePointer, left - 1, strip))
               == result + ReturnAddresses(mem, nextBasePointer, left - 1, strip);
        left := left - 1;
      }
      prevBasePointer := nextBasePointer;
      frameIndex := frameIndex + 1;
    }
    assert result == top + ReturnAddresses(mem, r.fp, n, strip);
    CallStackIsWalk(mem, r, topPCNoStackFrame, n, strip);
    forall m: nat | ChainEnds(mem, r.fp, m) ensures m == n {
      ChainLengthIsUnique(mem, r.fp, m, n);
    }
  }

  // ---------------------------------------------------------------- when the walk ends

  /** The frame pointer after k links. */
  function Nth(mem: Memory, fp: uint64, k: nat): uint64 {
    if k == 0 then fp else Deref(mem, Nth(mem, fp, k - 1))
  }

  ghost predicate Revisits(mem: Memory, fp: uint64, i: nat, j: nat) {
    i < j && Nth(mem, fp, i) == Nth(mem, fp, j) != 0
  }

  lemma {:induction false} NthShift(mem: Memory, fp: uint64, k: nat)
    ensures Nth(mem, Deref(mem, fp), k) == Nth(mem, fp, k + 1)
  {
    if k > 0 {
      NthShift(mem, fp, k - 1);
    }
  }

  /** What follows the link at i is the rest of the chain. */
  lemma {:induction false} ChainFrom(mem: Memory, fp: uint64, n: nat, i: nat)
    requires ChainEnds(mem, fp, n) && i <= n
    ensures ChainEnds(mem, Nth(mem, fp, i), n - i)
  {
    hide Deref;
    if i > 0 {
      ChainFrom(mem, fp, n, i - 1);
    }
  }

  lemma {:induction false} ZeroStaysZero(mem: Memory, fp: uint64, i: nat, j: nat)
    requires i <= j && Nth(mem, fp, i) == 0 && Deref(mem, 0) == 0
    ensures Nth(mem, fp, j) == 0
  {
    if i < j {
      ZeroStaysZero(mem, fp, i, j - 1);
    }
  }

  lemma {:induction false} EndingChainNeverRevisits(mem: Memory, fp: uint64, n: nat, i: nat, j: nat)
    requires ChainEnds(mem, fp, n) && Deref(mem, 0) == 0
    ensures !Revisits(mem, fp, i, j)
  {
    if Revisits(mem, fp, i, j) {
      ChainFrom(mem, fp, n, if i <= n then i else n);
      if j <= n {
        ChainFrom(mem, fp, n, j);
        ChainLengthIsUnique(mem, Nth(mem, fp, i), n - i, n - j);
      } else {
        ChainFrom(mem, fp, n, n);
        ZeroStaysZero(mem, fp, n + 1, j);
      }
    }
  }

  /** The pointers visited in the first k steps. */
  function Visited(mem: Memory, fp: uint64, k: nat): set<nat> {
    if k == 0 then {} else Visited(mem, fp, k - 1) + {Nth(mem, fp, k - 1)}
  }

  lemma {:induction false} VisitedMeans(mem: Memory, fp: uint64, k: nat, p: nat)
    ensures p in Visited(mem, fp, k) <==> exists i :: 0 <= i < k && Nth(mem, fp, i) == p
  {
    hide Deref, Nth;
    if k > 0 {
      VisitedMeans(mem, fp, k - 1, p);
      assert p == Nth(mem, fp, k - 1) ==> exists i :: 0 <= i < k && Nth(mem, fp, i) == p;
    }
  }

  /** k steps without an end and without a revisit pass k different readable addresses. */
  lemma NthIsMapped(mem: Memory, fp: uint64, k: nat)
    requires Nth(mem, fp, k + 1) != 0
    ensures Nth(mem, fp, k) in mem
  {
  }

  lemma {:induction false} VisitedCount(mem: Memory, fp: uint64, k: nat)
    requires forall i :: 0 < i <= k ==> Nth(mem, fp, i) != 0
    requires forall i, j :: 0 <= i < j < k ==> Nth(mem, fp, i) != Nth(mem, fp, j)
    ensures |Visited(mem, fp, k)| == k && Visited(mem, fp, k) <= mem.Keys
  {
    hide Deref, Nth;
    if k > 0 {
      VisitedCount(mem, fp, k - 1);
      VisitedMeans(mem, fp, k - 1, Nth(mem, fp, k - 1));
      assert Nth(mem, fp, k) != 0;
      NthIsMapped(mem, fp, k - 1);
    }
  }

  lemma {:induction false} EndsAtFirstZero(mem: Memory, fp: uint64, k: nat)
    requires Nth(mem, fp, k + 1) == 0
    ensures exists n: nat :: ChainEnds(mem, fp, n)
    decreases k
  {
    if Deref(mem, fp) == 0 {
      assert ChainEnds(mem, fp, 0);
    } else {
      assert k > 0;
      NthShift(mem, fp, k);
      EndsAtFirstZero(mem, Deref(mem, fp), k - 1);
      var n: nat :| ChainEnds(mem, Deref(mem, fp), n);
      assert ChainEnds(mem, fp, n + 1);
    }
  }

  /**
   The walk ends exactly when the chain of saved frame pointers never comes back to an address it has
   passed (address 0 being unmapped, as in every process).
   */
  lemma WalkEndsIff(mem: Memory, fp: uint64)
    requires fp != 0 && Deref(mem, 0) == 0
    ensures (exists n: nat :: ChainEnds(mem, fp, n)) <==> (forall i: nat, j: nat :: !Revisits(mem, fp, i, j))
  {
    assert |mem.Keys| == |mem|;
    if n: nat :| ChainEnds(mem, fp, n) {
      forall i: nat, j: nat ensures !Revisits(mem, fp, i, j) {
        EndingChainNeverRevisits(mem, fp, n, i, j);
      }
      assert exists m: nat :: ChainEnds(mem, fp, m);
    } else if forall i: nat, j: nat :: !Revisits(mem, fp, i, j) {
      var k := |mem| + 1;
      forall i | 0 <= i <= k ensures Nth(mem, fp, i) != 0 {
        if i > 0 && Nth(mem, fp, i) == 0 {
          EndsAtFirstZero(mem, fp, i - 1);
        }
      }
      forall i, j | 0 <= i < j < k ensures Nth(mem, fp, i) != Nth(mem, fp, j) {
        assert !Revisits(mem, fp, i, j);
      }
      VisitedCount(mem, fp, k);
      SubsetSize(Visited(mem, fp, k), mem.Keys);
    }
  }

  lemma {:induction false} SubsetSize(a: set<nat>, b: set<nat>)
    requires a <= b
    ensures |a| <= |b|
  {
    if a != {} {
      var x :| x in a;
      SubsetSize(a - {x}, b - {x});
    }
  }

  /** Saved frame pointers that grow until one is 0 or unreadable are such a chain. */
  lemma GrowingChainEnds(mem: Memory, fp: uint64)
    requires fp != 0 && Deref(mem, 0) == 0
    requires forall k: nat :: Nth(mem, fp, k + 1) == 0 || Nth(mem, fp, k + 1) > Nth(mem, fp, k)
    ensures exists n: nat :: ChainEnds(mem, fp, n)
  {
    forall i: nat, j: nat ensures !Revisits(mem, fp, i, j) {
      if Revisits(mem, fp, i, j) {
        NthGrows(mem, fp, i, j);
      }
    }
    WalkEndsIff(mem, fp);
  }

  lemma {:induction false} NthGrows(mem: Memory, fp: uint64, i: nat, j: nat)
    requires i < j && Deref(mem, 0) == 0 && Nth(mem, fp, j) != 0
    requires forall k: nat :: Nth(mem, fp, k + 1) == 0 || Nth(mem, fp, k + 1) > Nth(mem, fp, k)
    ensures Nth(mem, fp, i) < Nth(mem, fp, j)
  {
    assert Nth(mem, fp, (j - 1) + 1) > Nth(mem, fp, j - 1);
    assert Nth(mem, fp, j - 1) != 0;
    if i < j - 1 {
      NthGrows(mem, fp, i, j - 1);
    }
  }
}
