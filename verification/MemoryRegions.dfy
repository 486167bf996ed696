/** The memory regions of the target, and the region an address belongs to. */
module MemoryRegions {
  import opened Bytes
  import opened Search

  datatype MemoryRegionType = Unknown | Stack | Heap

  datatype RegionInfo = RegionInfo(vmaddr: uint64, vmsize: uint64, prot: byte, kind: MemoryRegionType)

  const MEM_PROT_EXECUTE: byte := 4

  function Starts(regions: seq<RegionInfo>): (keys: seq<uint64>)
    ensures |keys| == |regions|
  {
    seq(|regions|, i requires 0 <= i < |regions| => regions[i].vmaddr)
  }

  /** Regions in address order that neither wrap nor overlap. */
  predicate RegionsOk(regions: seq<RegionInfo>) {
    && Ascending(Starts(regions))
    && (forall i :: 0 <= i < |regions| ==> regions[i].vmaddr + regions[i].vmsize < UINT64_MOD)
    && (forall i, j :: 0 <= i < j < |regions| ==> regions[i].vmaddr + regions[i].vmsize <= regions[j].vmaddr)
  }

  /** Both ends count as inside. */
  predicate IsInRegion(r: RegionInfo, a: uint64) {
    a >= r.vmaddr && a <= Add64(r.vmaddr, r.vmsize)
  }

  function FindRegion(regions: seq<RegionInfo>, a: uint64): (r: Option<RegionInfo>)
    requires Ascending(Starts(regions))
  {
    if regions == [] then None
    else
      var k := Candidate(Starts(regions), a);
      if IsInRegion(regions[k], a) then Some(regions[k]) else None
  }

  /** A found region contains the address, so the distance to its end is never negative. */
  lemma FoundRegionContains(regions: seq<RegionInfo>, a: uint64)
    requires RegionsOk(regions) && FindRegion(regions, a).Some?
    ensures var r := FindRegion(regions, a).value;
            r.vmaddr <= a <= r.vmaddr + r.vmsize < UINT64_MOD
  {
  }

  /**
   The predecessor search is a scan for the region that contains the address, its end included; at
   the seam of two regions the one that starts there wins.
   */
  lemma FindRegionRefinesScan(regions: seq<RegionInfo>, a: uint64, k: nat)
    requires RegionsOk(regions) && k < |regions|
    ensures FindRegion(regions, a) == Some(regions[k])
            <==> regions[k].vmaddr <= a <= regions[k].vmaddr + regions[k].vmsize && forall j :: k < j < |regions| ==> regions[j].vmaddr != a
  {
    var keys := Starts(regions);
    var c := Candidate(keys, a);
    CandidateIsPredecessor(keys, a);
    assert forall j :: 0 <= j < |keys| ==> keys[j] == regions[j].vmaddr;
    assert regions[c] == regions[k] ==> keys[c] == keys[k];
  }

  class MemoryRegionList {
    var regions: seq<RegionInfo>

    constructor (regions: seq<RegionInfo>)
      ensures this.regions == regions
    {
      this.regions := regions;
    }

    method GetRegionInfoForAddress(a: uint64) returns (r: Option<RegionInfo>)
      requires Ascending(Starts(regions))
      ensures r == FindRegion(regions, a)
    {
      if regions == [] {
        return None;
      }
      var it := LowerBound(Starts(regions), a);
      if it == |regions| {
        var last := regions[|regions| - 1];
        return if IsInRegion(last, a) then Some(last) else None;
      }
      if it != 0 && a != regions[it].vmaddr {
        it := it - 1;
      }
      return if IsInRegion(regions[it], a) then Some(regions[it]) else None;
    }
  }
}
