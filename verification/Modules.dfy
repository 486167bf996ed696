/** The loaded modules of the target, ordered by load address, and the lookup of a code address. */
module Modules {
  import opened Bytes
  import opened CStrings
  import opened DataAccess
  import opened Search
  import opened ModuleImage

  function Keys(modules: seq<ModuleInfo>): (keys: seq<uint64>)
    ensures |keys| == |modules|
  {
    seq(|modules|, i requires 0 <= i < |modules| => modules[i].loadAddress)
  }

  /** What the list keeps: distinct load addresses in order, each __TEXT sliding to its load address. */
  predicate ListOk(modules: seq<ModuleInfo>) {
    Ascending(Keys(modules)) && forall i :: 0 <= i < |modules| ==> ModuleOk(modules[i])
  }

  predicate ModuleOk(m: ModuleInfo) {
    && NulFree(m.filePath)
    && |m.segments| < UINT32_MOD
    && WellFormedImage(m.headerAndLoadCommands)
    && (TextSegment(m.segments).Some? ==> TextSegment(m.segments).value.address == m.loadAddress)
  }

  /** The address lies in the __TEXT segment of the module, its upper end included. */
  predicate IsCodeInModule(m: ModuleInfo, a: uint64) {
    match TextSegment(m.segments)
    case Some(s) => s.address <= a && a <= Add64(s.address, s.size)
    case None => false
  }

  /** The module with the greatest load address not above a, if a is code in it. */
  ghost predicate Finds(modules: seq<ModuleInfo>, a: uint64, k: nat) {
    && IsPredecessor(Keys(modules), a, k)
    && TextSegment(modules[k].segments).Some?
    && var text := TextSegment(modules[k].segments).value; text.address <= a <= Low64(text.address + text.size)
  }

  function Find(modules: seq<ModuleInfo>, a: uint64): (r: Option<nat>)
    requires ListOk(modules)
    ensures r.Some? ==> r.value < |modules|
  {
    if modules == [] then None
    else
      var k := Candidate(Keys(modules), a);
      if IsCodeInModule(modules[k], a) then Some(k) else None
  }

  lemma FindIsPredecessor(modules: seq<ModuleInfo>, a: uint64, k: nat)
    requires ListOk(modules)
    ensures Find(modules, a) == Some(k) <==> Finds(modules, a, k)
  {
    if modules != [] {
      var c := Candidate(Keys(modules), a);
      CandidateIsPredecessor(Keys(modules), a);
      assert Keys(modules)[0] == modules[0].loadAddress;
      assert ModuleOk(modules[0]);
      if Finds(modules, a, k) {
        assert Keys(modules)[0] <= Keys(modules)[k];
        PredecessorIsUnique(Keys(modules), a, c, k);
      }
    }
  }

  // ---------------------------------------------------------------- disjoint modules

  /** Size of the __TEXT segment. */
  function TextSize(m: ModuleInfo): nat {
    match TextSegment(m.segments)
    case Some(s) => s.size
    case None => 0
  }

  /** No __TEXT segment wraps or reaches past the load address of a later module. */
  predicate TextsDisjoint(modules: seq<ModuleInfo>) {
    && (forall i :: 0 <= i < |modules| ==> modules[i].loadAddress + TextSize(modules[i]) < UINT64_MOD)
    && (forall i, j :: 0 <= i < j < |modules| ==>
          modules[i].loadAddress + TextSize(modules[i]) <= modules[j].loadAddress)
  }

  predicate ContainsCode(m: ModuleInfo, a: uint64) {
    TextSegment(m.segments).Some? && m.loadAddress <= a < m.loadAddress + TextSize(m)
  }

  predicate EndsAt(m: ModuleInfo, a: uint64) {
    TextSegment(m.segments).Some? && a == m.loadAddress + TextSize(m)
  }

  /**
   On disjoint modules the predecessor search finds the module that contains the address half-open;
   if no module does, it finds the one whose __TEXT ends exactly there, unless another module starts
   there; and nothing otherwise.
   */
  lemma FindRefinesScan(modules: seq<ModuleInfo>, a: uint64, k: nat)
    requires ListOk(modules) && TextsDisjoint(modules) && k < |modules|
    ensures Find(modules, a) == Some(k)
            <==> ContainsCode(modules[k], a)
                 || (EndsAt(modules[k], a) && forall j :: k < j < |modules| ==> modules[j].loadAddress != a)
  {
    FindIsPredecessor(modules, a, k);
    var keys := Keys(modules);
    var m := modules[k];
    assert ModuleOk(m);
    assert m.loadAddress + TextSize(m) < UINT64_MOD;
    assert forall j :: 0 <= j < |keys| ==> keys[j] == modules[j].loadAddress;
    assert IsCodeInModule(m, a) <==> ContainsCode(m, a) || EndsAt(m, a);
  }

  // ---------------------------------------------------------------- executing flags

  function Marked(modules: seq<ModuleInfo>, a: uint64): (r: seq<ModuleInfo>)
    requires ListOk(modules)
    ensures |r| == |modules| && ListOk(r) && Keys(r) == Keys(modules)
  {
    match Find(modules, a)
    case None => modules
    case Some(k) =>
      var r := modules[k := modules[k].(executing := true)];
      assert Keys(r) == Keys(modules);
      r
  }

  function MarkedAll(modules: seq<ModuleInfo>, ips: seq<uint64>): (r: seq<ModuleInfo>)
    requires ListOk(modules)
    ensures |r| == |modules| && ListOk(r) && Keys(r) == Keys(modules)
  {
    if ips == [] then modules else Marked(MarkedAll(modules, ips[..|ips| - 1]), ips[|ips| - 1])
  }

  /** The same modules up to their flags. */
  predicate SameModules(a: seq<ModuleInfo>, b: seq<ModuleInfo>) {
    |a| == |b| && forall i :: 0 <= i < |a| ==> a[i] == b[i].(executing := a[i].executing)
  }

  lemma FindIgnoresFlags(a: seq<ModuleInfo>, b: seq<ModuleInfo>, addr: uint64)
    requires ListOk(a) && ListOk(b) && SameModules(a, b)
    ensures Find(a, addr) == Find(b, addr)
  {
    assert Keys(a) == Keys(b);
  }

  lemma MarkedEffect(modules: seq<ModuleInfo>, a: uint64, k: nat)
    requires ListOk(modules) && k < |modules|
    ensures SameModules(Marked(modules, a), modules)
    ensures Marked(modules, a)[k].executing <==> modules[k].executing || Find(modules, a) == Some(k)
  {
  }

  lemma SameModulesTransitive(a: seq<ModuleInfo>, b: seq<ModuleInfo>, c: seq<ModuleInfo>)
    requires SameModules(a, b) && SameModules(b, c)
    ensures SameModules(a, c)
  {
  }

  /** Marking a list of addresses sets exactly the flags of the modules that one of them lies in. */
  lemma {:induction false} MarkedAllSetsExactly(modules: seq<ModuleInfo>, ips: seq<uint64>, k: nat)
    requires ListOk(modules) && k < |modules|
    ensures SameModules(MarkedAll(modules, ips), modules)
    ensures MarkedAll(modules, ips)[k].executing
            <==> modules[k].executing || exists i :: 0 <= i < |ips| && Find(modules, ips[i]) == Some(k)
  {
    hide ListOk, Marked, Find, Keys, Ascending, SameModules;
    if ips == [] {
      assert SameModules(modules, modules) by { SameModulesReflexive(modules); }
    } else {
      var n := |ips| - 1;
      MarkedAllSetsExactly(modules, ips[..n], k);
      var before := MarkedAll(modules, ips[..n]);
      MarkedEffect(before, ips[n], k);
      SameModulesTransitive(MarkedAll(modules, ips), before, modules);
      FindIgnoresFlags(before, modules, ips[n]);
      assert forall i :: 0 <= i < n ==> ips[..n][i] == ips[i];
    }
  }

  lemma SameModulesReflexive(modules: seq<ModuleInfo>)
    ensures SameModules(modules, modules)
  {
  }

  lemma MarkedAllSnoc(modules: seq<ModuleInfo>, ips: seq<uint64>, ip: uint64)
    requires ListOk(modules)
    ensures MarkedAll(modules, ips + [ip]) == Marked(MarkedAll(modules, ips), ip)
  {
    hide ListOk, Marked, Keys, Ascending;
    assert (ips + [ip])[..|ips|] == ips;
  }

  lemma {:induction false} MarkedAllConcat(modules: seq<ModuleInfo>, a: seq<uint64>, b: seq<uint64>)
    requires ListOk(modules)
    ensures MarkedAll(modules, a + b) == MarkedAll(MarkedAll(modules, a), b)
  {
    hide ListOk, Marked, Keys, Ascending;
    if b == [] {
      assert a + b == a;
    } else {
      var n := |b| - 1;
      MarkedAllConcat(modules, a, b[..n]);
      assert a + b == (a + b[..n]) + [b[n]];
      MarkedAllSnoc(modules, a + b[..n], b[n]);
    }
  }

  // ---------------------------------------------------------------- building the list

  /** emplace: an entry with the same key stays. */
  function Emplace(modules: seq<ModuleInfo>, m: ModuleInfo): (r: seq<ModuleInfo>)
    requires ListOk(modules) && ModuleOk(m)
    ensures ListOk(r) && r != []
  {
    var it := LowerBound(Keys(modules), m.loadAddress);
    if it < |modules| && modules[it].loadAddress == m.loadAddress then modules
    else
      var r := modules[..it] + [m] + modules[it..];
      EmplaceOk(modules, m, it);
      r
  }

  lemma EmplaceOk(modules: seq<ModuleInfo>, m: ModuleInfo, it: nat)
    requires ListOk(modules) && ModuleOk(m)
    requires it == LowerBound(Keys(modules), m.loadAddress)
    requires it < |modules| ==> modules[it].loadAddress != m.loadAddress
    ensures ListOk(modules[..it] + [m] + modules[it..])
  {
    var r, keys := modules[..it] + [m] + modules[it..], Keys(modules);
    hide ModuleOk, Ascending;
    assert Keys(r) == keys[..it] + [m.loadAddress] + keys[it..];
    assert it < |keys| ==> keys[it] == modules[it].loadAddress;
    EmplacedAscend(keys, m.loadAddress, it);
    forall i | 0 <= i < |r| ensures ModuleOk(r[i]) {
      assert r[i] == if i < it then modules[i] else if i == it then m else modules[i - 1];
    }
  }

  lemma EmplacedAscend(keys: seq<uint64>, key: uint64, it: nat)
    requires Ascending(keys) && it == LowerBound(keys, key) && (it < |keys| ==> keys[it] != key)
    ensures it <= |keys| && Ascending(keys[..it] + [key] + keys[it..])
  {
    hide LowerBound;
  }

  /** One entry of the loader's image array; the path may be unreadable. */
  datatype ImageRef = ImageRef(loadAddress: uint64, path: Option<seq<byte>>)

  predicate ImagesOk(mem: Memory, refs: seq<ImageRef>) {
    forall i :: 0 <= i < |refs| ==> ImageOk(mem, refs[i])
  }

  /** Paths end at their first zero byte, and an image that can be read has well-formed commands. */
  predicate ImageOk(mem: Memory, ref: ImageRef) {
    && (ref.path.Some? ==> NulFree(ref.path.value))
    && (RawImage(mem, ref.loadAddress).Some? ==> WellFormedImage(RawImage(mem, ref.loadAddress).value))
  }

  function ModuleAt(mem: Memory, ref: ImageRef): (m: Option<ModuleInfo>)
    requires ImageOk(mem, ref)
    ensures m.Some? ==> ModuleOk(m.value)
  {
    if ref.path.None? || RawImage(mem, ref.loadAddress).None? then None
    else
      var raw := RawImage(mem, ref.loadAddress).value;
      TextStartsAtLoadAddress(ref.loadAddress, ref.path.value, raw);
      SegmentsAreFew(raw);
      Some(ModuleOf(ref.loadAddress, ref.path.value, raw))
  }

  /** The list after taking in these images one by one, unless one of them fails. */
  function Listed(mem: Memory, refs: seq<ImageRef>): (r: Option<seq<ModuleInfo>>)
    requires ImagesOk(mem, refs)
    ensures r.Some? ==> ListOk(r.value)
  {
    if refs == [] then Some([])
    else
      match (Listed(mem, refs[..|refs| - 1]), ModuleAt(mem, refs[|refs| - 1]))
      case (Some(ms), Some(m)) => Some(Emplace(ms, m))
      case _ => None
  }

  lemma {:induction false} ListedFails(mem: Memory, refs: seq<ImageRef>, i: nat)
    requires ImagesOk(mem, refs) && i < |refs| && ModuleAt(mem, refs[i]).None?
    ensures Listed(mem, refs).None?
  {
    hide ImageOk, ModuleAt, Emplace, ListOk;
    if i < |refs| - 1 {
      ListedFails(mem, refs[..|refs| - 1], i);
    }
  }

  lemma NothingListed()
    ensures ListOk([])
  {
  }

  lemma EmplaceElems(modules: seq<ModuleInfo>, m: ModuleInfo, p: ModuleInfo)
    requires ListOk(modules) && ModuleOk(m)
    ensures p in Emplace(modules, m)
            <==> p in modules || (p == m && forall q :: q in modules ==> q.loadAddress != m.loadAddress)
  {
    hide ModuleOk;
    var it, keys := LowerBound(Keys(modules), m.loadAddress), Keys(modules);
    assert forall i :: 0 <= i < |modules| ==> keys[i] == modules[i].loadAddress;
    if it < |modules| && modules[it].loadAddress == m.loadAddress {
      assert modules[it] in modules;
    } else {
      forall q | q in modules ensures q.loadAddress != m.loadAddress {
        var i :| 0 <= i < |modules| && modules[i] == q;
        assert keys[i] == q.loadAddress;
      }
      assert modules == modules[..it] + modules[it..];
    }
  }

  /** No earlier image of the list has the same load address. */
  predicate IsFirst(refs: seq<ImageRef>, i: nat) {
    i < |refs| && forall j :: 0 <= j < i ==> refs[j].loadAddress != refs[i].loadAddress
  }

  /** Module m comes from the first image with its load address. */
  predicate FromFirst(m: ModuleInfo, mem: Memory, refs: seq<ImageRef>)
    requires ImagesOk(mem, refs)
  {
    exists i :: 0 <= i < |refs| && IsFirst(refs, i) && ModuleAt(mem, refs[i]) == Some(m)
  }

  lemma ModuleAtAddress(mem: Memory, ref: ImageRef)
    requires ImageOk(mem, ref) && ModuleAt(mem, ref).Some?
    ensures ModuleAt(mem, ref).value.loadAddress == ref.loadAddress
  {
    hide WellFormedImage, RawImage, ImageCommands;
  }

  /** What becomes of one image: nothing if its path, header or commands cannot be read. */
  lemma ModuleAtMeans(mem: Memory, ref: ImageRef)
    requires ImageOk(mem, ref)
    ensures ModuleAt(mem, ref).Some?
            <==> ref.path.Some? && Readable(mem, ref.loadAddress, 32)
                 && Readable(mem, ref.loadAddress, 32 + Word(mem, ref.loadAddress + 20))
    ensures var m := ModuleAt(mem, ref);
            m.Some? ==>
              && m.value.loadAddress == ref.loadAddress && m.value.filePath == ref.path.value && !m.value.executing
              && |m.value.headerAndLoadCommands| == 32 + Word(mem, ref.loadAddress + 20)
              && forall i :: 0 <= i < |m.value.headerAndLoadCommands| ==>
                   ref.loadAddress + i in mem && m.value.headerAndLoadCommands[i] == mem[ref.loadAddress + i]
  {
    hide WellFormedImage, RawImage, ImageCommands, Word;
    RawImageMeans(mem, ref.loadAddress);
  }

  lemma FromFirstSnoc(m: ModuleInfo, mem: Memory, refs: seq<ImageRef>, ref: ImageRef)
    requires ImagesOk(mem, refs + [ref]) && ImagesOk(mem, refs) && ImageOk(mem, ref)
    ensures FromFirst(m, mem, refs + [ref])
            <==> FromFirst(m, mem, refs)
                 || (ModuleAt(mem, ref) == Some(m) && forall i :: 0 <= i < |refs| ==> refs[i].loadAddress != ref.loadAddress)
  {
    hide ImageOk, ModuleAt;
    var all := refs + [ref];
    assert all[|refs|] == ref && forall i :: 0 <= i < |refs| ==> all[i] == refs[i];
    if FromFirst(m, mem, refs) {
      var i :| 0 <= i < |refs| && IsFirst(refs, i) && ModuleAt(mem, refs[i]) == Some(m);
      assert IsFirst(all, i) && ModuleAt(mem, all[i]) == Some(m);
    }
    if ModuleAt(mem, ref) == Some(m) && forall i :: 0 <= i < |refs| ==> refs[i].loadAddress != ref.loadAddress {
      assert IsFirst(all, |refs|);
    }
    if FromFirst(m, mem, all) {
      var i :| 0 <= i < |all| && IsFirst(all, i) && ModuleAt(mem, all[i]) == Some(m);
      if i < |refs| {
        assert IsFirst(refs, i);
      }
    }
  }

  /** For every image some module of the list lies at its address. */
  predicate AllPresent(modules: seq<ModuleInfo>, refs: seq<ImageRef>) {
    forall i :: 0 <= i < |refs| ==> exists m :: m in modules && m.loadAddress == refs[i].loadAddress
  }

  /** When no image fails, the list has exactly the first image of every load address. */
  lemma {:induction false} ListedMeans(mem: Memory, refs: seq<ImageRef>)
    requires ImagesOk(mem, refs) && forall i :: 0 <= i < |refs| ==> ModuleAt(mem, refs[i]).Some?
    ensures Listed(mem, refs).Some? && AllPresent(Listed(mem, refs).value, refs)
    ensures forall m :: m in Listed(mem, refs).value <==> FromFirst(m, mem, refs)
  {
    hide ImageOk, ModuleAt, Emplace, ListOk, FromFirst, ModuleOk;
    if refs == [] {
      NothingFirst(mem);
    } else {
      var n := |refs| - 1;
      var init, ref := refs[..n], refs[n];
      assert refs == init + [ref];
      ListedMeans(mem, init);
      var before, m := Listed(mem, init).value, ModuleAt(mem, ref).value;
      ModuleAtAddress(mem, ref);
      AddressesPresent(before, mem, init, ref.loadAddress);
      forall p: ModuleInfo ensures p in Emplace(before, m) <==> FromFirst(p, mem, refs) {
        EmplaceElems(before, m, p);
        FromFirstSnoc(p, mem, init, ref);
      }
      StillPresent(before, m, init, ref);
    }
  }

  lemma NothingFirst(mem: Memory)
    ensures forall m :: !FromFirst(m, mem, [])
  {
  }

  /** The addresses in the list are those of the images. */
  lemma AddressesPresent(modules: seq<ModuleInfo>, mem: Memory, refs: seq<ImageRef>, address: uint64)
    requires ImagesOk(mem, refs) && AllPresent(modules, refs)
    requires forall m :: m in modules <==> FromFirst(m, mem, refs)
    ensures (forall q :: q in modules ==> q.loadAddress != address)
            <==> forall i :: 0 <= i < |refs| ==> refs[i].loadAddress != address
  {
    hide ImagesOk, FromFirst;
    if forall i :: 0 <= i < |refs| ==> refs[i].loadAddress != address {
      forall q | q in modules ensures q.loadAddress != address {
        FirstAddress(q, mem, refs);
      }
    }
  }

  lemma FirstAddress(m: ModuleInfo, mem: Memory, refs: seq<ImageRef>)
    requires ImagesOk(mem, refs) && FromFirst(m, mem, refs)
    ensures exists i :: 0 <= i < |refs| && refs[i].loadAddress == m.loadAddress
  {
    hide ImageOk, ModuleAt;
    var i :| 0 <= i < |refs| && IsFirst(refs, i) && ModuleAt(mem, refs[i]) == Some(m);
    ModuleAtAddress(mem, refs[i]);
  }

  lemma StillPresent(before: seq<ModuleInfo>, m: ModuleInfo, init: seq<ImageRef>, ref: ImageRef)
    requires ListOk(before) && ModuleOk(m) && AllPresent(before, init) && m.loadAddress == ref.loadAddress
    ensures AllPresent(Emplace(before, m), init + [ref])
  {
    hide ListOk, ModuleOk, Emplace;
    forall q ensures q in before ==> q in Emplace(before, m) {
      EmplaceElems(before, m, q);
    }
    EmplaceElems(before, m, m);
  }

  class ModuleList {
    var modules: seq<ModuleInfo>

    predicate Valid()
      reads this
    {
      ListOk(modules)
    }

    /** The loader itself comes first in the list of images; one failure empties the module list. */
    constructor (mem: Memory, refs: seq<ImageRef>)
      requires ImagesOk(mem, refs)
      ensures Valid()
      ensures modules == if Listed(mem, refs).Some? then Listed(mem, refs).value else []
      ensures if exists i :: 0 <= i < |refs| && ModuleAt(mem, refs[i]).None? then modules == []
              else AllPresent(modules, refs) && forall m :: m in modules <==> FromFirst(m, mem, refs)
    {
      hide ImageOk, ModuleAt, Emplace, ListOk, FromFirst, AllPresent;
      modules := [];
      new;
      if i :| 0 <= i < |refs| && ModuleAt(mem, refs[i]).None? {
        ListedFails(mem, refs, i);
      } else {
        ListedMeans(mem, refs);
      }
      for i := 0 to |refs|
        invariant Listed(mem, refs[..i]) == Some(modules)
      {
        assert refs[..i + 1][..i] == refs[..i];
        var m := LoadModule(mem, refs[i]);
        if m.None? {
          modules := [];
          ListedFails(mem, refs, i);
          NothingListed();
          return;
        }
        modules := Emplace(modules, m.value);
      }
      assert refs[..|refs|] == refs;
    }

    static method LoadModule(mem: Memory, ref: ImageRef) returns (m: Option<ModuleInfo>)
      requires ImageOk(mem, ref)
      ensures m == ModuleAt(mem, ref)
    {
      if ref.path.None? {
        return None;
      }
      m := CreateModuleInfo(mem, ref.loadAddress, ref.path.value);
    }

    method GetModuleInfoForAddress(a: uint64) returns (r: Option<nat>)
      requires Valid()
      ensures r == Find(modules, a)
    {
      if modules == [] {
        return None;
      }
      var it := LowerBound(Keys(modules), a);
      if it == |modules| {
        return if IsCodeInModule(modules[|modules| - 1], a) then Some(|modules| - 1) else None;
      }
      if it != 0 && a != modules[it].loadAddress {
        it := it - 1;
      }
      return if IsCodeInModule(modules[it], a) then Some(it) else None;
    }

    method MarkAsExecuting(a: uint64) returns (ok: bool)
      requires Valid()
      modifies this
      ensures Valid() && modules == Marked(old(modules), a)
      ensures ok <==> Find(old(modules), a).Some?
    {
      var k := GetModuleInfoForAddress(a);
      if k.None? {
        return false;
      }
      modules := modules[k.value := modules[k.value].(executing := true)];
      assert modules == Marked(old(modules), a);
      return true;
    }
  }
}
