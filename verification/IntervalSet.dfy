/**
 The set of address ranges selected for the core file: an ordered map from start to end that
 merges on insertion. The map is modelled as the sequence of its entries in key order, and an
 iterator as an index into that sequence.
 */
module IntervalSet {
  import opened Bytes

  datatype Interval = Interval(start: uint64, end: uint64)

  /** One insertion request: the addresses start, ..., start + length - 1. */
  datatype Range = Range(start: uint64, length: uint64)

  predicate Wraps(r: Range) {
    r.length > 0 && r.start + r.length >= UINT64_MOD
  }

  predicate InRange(a: nat, r: Range) {
    r.start <= a < r.start + r.length
  }

  /** What an ordered map guarantees by itself. */
  predicate KeySorted(m: seq<Interval>) {
    forall i, j :: 0 <= i < j < |m| ==> m[i].start < m[j].start
  }

  /** Sorted, non-empty, disjoint runs that do not even touch. */
  predicate WellFormed(m: seq<Interval>) {
    && (forall i :: 0 <= i < |m| ==> m[i].start < m[i].end)
    && (forall i, j :: 0 <= i < j < |m| ==> m[i].end < m[j].start)
  }

  predicate Holds(iv: Interval, a: nat) {
    iv.start <= a < iv.end
  }

  predicate Covered(m: seq<Interval>, a: nat) {
    exists i :: 0 <= i < |m| && Holds(m[i], a)
  }

  predicate Requested(rs: seq<Range>, a: nat) {
    exists i :: 0 <= i < |rs| && InRange(a, rs[i])
  }

  /** A well-formed map that lists the maximal runs of the union of the requested ranges. */
  ghost predicate RunsOf(m: seq<Interval>, rs: seq<Range>) {
    WellFormed(m) && forall a: nat :: Covered(m, a) <==> Requested(rs, a)
  }

  // ---------------------------------------------------------------- how the program reads an entry

  /** The length with which the program visits an entry: a stored end of 0 stands for 2^64. */
  function LengthOf(iv: Interval): uint64 {
    Sub64(iv.end, iv.start)
  }

  predicate InSpan(iv: Interval, a: nat) {
    iv.start <= a < iv.start + LengthOf(iv)
  }

  predicate Spanned(m: seq<Interval>, a: nat) {
    exists iv :: iv in m && InSpan(iv, a)
  }

  /** No two entries span the address. */
  predicate Single(m: seq<Interval>, a: nat) {
    forall p, q :: p in m && q in m && InSpan(p, a) && InSpan(q, a) ==> p == q
  }

  /** Visiting all entries meets every requested address once, and nothing else. */
  ghost predicate EachOnce(m: seq<Interval>, rs: seq<Range>) {
    forall a: nat :: (Spanned(m, a) <==> Requested(rs, a)) && Single(m, a)
  }

  /** As they are visited, the entries do not even touch. */
  predicate Apart(m: seq<Interval>) {
    forall i, j :: 0 <= i < j < |m| ==> m[i].start + LengthOf(m[i]) < m[j].start
  }

  /** The entries are the maximal runs of the requested addresses. */
  ghost predicate Denotes(m: seq<Interval>, rs: seq<Range>) {
    AllBounded(m) && Apart(m) && forall a: nat :: Spanned(m, a) <==> Requested(rs, a)
  }

  /** In a well-formed map no end is 0, and both readings agree. */
  lemma SpannedIsCovered(m: seq<Interval>, a: nat)
    requires WellFormed(m)
    ensures Spanned(m, a) <==> Covered(m, a)
  {
    if Covered(m, a) {
      var i :| 0 <= i < |m| && Holds(m[i], a);
      assert m[i] in m && InSpan(m[i], a);
    }
    if iv :| iv in m && InSpan(iv, a) {
      var i :| 0 <= i < |m| && m[i] == iv;
      assert Holds(m[i], a);
    }
  }

  lemma ApartIsSingle(m: seq<Interval>, a: nat)
    requires Apart(m)
    ensures Single(m, a)
  {
  }

  lemma DenotesIsEachOnce(m: seq<Interval>, rs: seq<Range>)
    requires Denotes(m, rs)
    ensures EachOnce(m, rs)
  {
    hide InSpan, Requested;
    forall a: nat ensures Single(m, a) {
      ApartIsSingle(m, a);
    }
  }

  lemma RunsOfDenotes(m: seq<Interval>, rs: seq<Range>)
    requires RunsOf(m, rs)
    ensures Denotes(m, rs)
  {
    forall a: nat ensures Spanned(m, a) <==> Requested(rs, a) {
      SpannedIsCovered(m, a);
    }
  }

  // ---------------------------------------------------------------- ordered map primitives

  /** Index of the first entry whose key is greater than k. */
  function UpperBound(m: seq<Interval>, k: uint64): (i: nat)
    requires KeySorted(m)
    ensures i <= |m|
    ensures forall j :: 0 <= j < i ==> m[j].start <= k
    ensures forall j :: i <= j < |m| ==> m[j].start > k
  {
    UpperBoundBelow(m, k, |m|)
  }

  function UpperBoundBelow(m: seq<Interval>, k: uint64, n: nat): (i: nat)
    requires KeySorted(m) && n <= |m|
    requires forall j :: n <= j < |m| ==> m[j].start > k
    ensures i <= |m|
    ensures forall j :: 0 <= j < i ==> m[j].start <= k
    ensures forall j :: i <= j < |m| ==> m[j].start > k
  {
    if n == 0 || m[n - 1].start <= k then n else UpperBoundBelow(m, k, n - 1)
  }

  /** m[k] = end, for an ordered map. */
  function Assign(m: seq<Interval>, k: uint64, end: uint64): (r: seq<Interval>)
    requires KeySorted(m)
    ensures KeySorted(r)
  {
    var i := UpperBound(m, k);
    if i > 0 && m[i - 1].start == k
    then m[i - 1 := Interval(k, end)]
    else m[..i] + [Interval(k, end)] + m[i..]
  }

  // ---------------------------------------------------------------- reference definition

  /** Index of the first run that ends at s or later. */
  function FirstReaching(m: seq<Interval>, s: uint64): (i: nat)
    requires WellFormed(m)
    ensures i <= |m|
    ensures forall j :: 0 <= j < i ==> m[j].end < s
    ensures forall j :: i <= j < |m| ==> m[j].end >= s
  {
    FirstReachingBelow(m, s, |m|)
  }

  function FirstReachingBelow(m: seq<Interval>, s: uint64, n: nat): (i: nat)
    requires WellFormed(m) && n <= |m|
    requires forall j :: n <= j < |m| ==> m[j].end >= s
    ensures i <= |m|
    ensures forall j :: 0 <= j < i ==> m[j].end < s
    ensures forall j :: i <= j < |m| ==> m[j].end >= s
  {
    if n == 0 || m[n - 1].end < s then n else FirstReachingBelow(m, s, n - 1)
  }

  /** Everything that touches [s, e), as one run. */
  function NewRun(m: seq<Interval>, s: uint64, e: uint64): Interval
    requires WellFormed(m) && s < e
  {
    var left, right := FirstReaching(m, s), UpperBound(m, e);
    if right <= left then Interval(s, e)
    else Interval(Min64(s, m[left].start), Max64(e, m[right - 1].end))
  }

  /** The runs left of [s, e), one run for everything that touches it, and the runs right of it. */
  function Merged(m: seq<Interval>, s: uint64, e: uint64): (r: seq<Interval>)
    requires WellFormed(m) && s < e
  {
    m[..FirstReaching(m, s)] + [NewRun(m, s, e)] + m[UpperBound(m, e)..]
  }

  /** The new run keeps a distance from the runs around it. */
  lemma RunBetween(m: seq<Interval>, s: uint64, e: uint64)
    requires WellFormed(m) && s < e
    ensures var left, right, run := FirstReaching(m, s), UpperBound(m, e), NewRun(m, s, e);
            && left <= right && run.start < run.end
            && (left > 0 ==> m[left - 1].end < run.start) && (right < |m| ==> run.end < m[right].start)
  {
    var left, right := FirstReaching(m, s), UpperBound(m, e);
    assert right == |m| || m[right].start > e;
    assert left <= right;
  }

  lemma WellFormedAround(m: seq<Interval>, left: nat, run: Interval, right: nat)
    requires WellFormed(m) && left <= right <= |m| && run.start < run.end
    requires left > 0 ==> m[left - 1].end < run.start
    requires right < |m| ==> run.end < m[right].start
    ensures WellFormed(m[..left] + [run] + m[right..])
  {
    assert forall i :: 0 <= i < left ==> m[i].end <= m[left - 1].end;
    assert forall i :: right <= i < |m| ==> m[right].start <= m[i].start;
  }

  lemma MergedWellFormed(m: seq<Interval>, s: uint64, e: uint64)
    requires WellFormed(m) && s < e
    ensures WellFormed(Merged(m, s, e))
  {
    RunBetween(m, s, e);
    WellFormedAround(m, FirstReaching(m, s), NewRun(m, s, e), UpperBound(m, e));
  }

  lemma CoveredConcat(m1: seq<Interval>, m2: seq<Interval>, a: nat)
    ensures Covered(m1 + m2, a) <==> Covered(m1, a) || Covered(m2, a)
  {
    var m := m1 + m2;
    if Covered(m1, a) {
      var i :| 0 <= i < |m1| && Holds(m1[i], a);
      assert Holds(m[i], a);
    }
    if Covered(m2, a) {
      var i :| 0 <= i < |m2| && Holds(m2[i], a);
      assert Holds(m[|m1| + i], a);
    }
  }

  /** Where the new run begins and ends. */
  lemma RunEnds(m: seq<Interval>, s: uint64, e: uint64)
    requires WellFormed(m) && s < e
    ensures var left, right, run := FirstReaching(m, s), UpperBound(m, e), NewRun(m, s, e);
            && left <= right
            && (left == right ==> run == Interval(s, e))
            && (left < right ==> run == Interval(Min64(s, m[left].start), Max64(e, m[right - 1].end)))
  {
    assert UpperBound(m, e) == |m| || m[UpperBound(m, e)].start > e;
  }

  /** The new run holds exactly the requested addresses and those of the runs it replaces. */
  lemma RunHolds(m: seq<Interval>, s: uint64, e: uint64, a: nat)
    requires WellFormed(m) && s < e
    ensures FirstReaching(m, s) <= UpperBound(m, e)
    ensures Holds(NewRun(m, s, e), a) <==> Covered(m[FirstReaching(m, s)..UpperBound(m, e)], a) || s <= a < e
  {
    hide NewRun;
    RunEnds(m, s, e);
    var left, right := FirstReaching(m, s), UpperBound(m, e);
    var mid := m[left..right];
    if Covered(mid, a) {
      var i :| 0 <= i < |mid| && Holds(mid[i], a);
      assert mid[i] == m[left + i];
    }
    if Holds(NewRun(m, s, e), a) && !(s <= a < e) {
      assert Holds(mid[if a < s then 0 else |mid| - 1], a);
    }
  }

  lemma CoveredAround(m: seq<Interval>, left: nat, mid: seq<Interval>, right: nat, a: nat)
    requires left <= right <= |m|
    ensures Covered(m[..left] + mid + m[right..], a)
            <==> Covered(m[..left], a) || Covered(mid, a) || Covered(m[right..], a)
  {
    CoveredConcat(m[..left] + mid, m[right..], a);
    CoveredConcat(m[..left], mid, a);
  }

  lemma MergedCovers(m: seq<Interval>, s: uint64, e: uint64, a: nat)
    requires WellFormed(m) && s < e
    ensures Covered(Merged(m, s, e), a) <==> Covered(m, a) || s <= a < e
  {
    hide NewRun, Covered, Holds;
    RunHolds(m, s, e, a);
    OneRun(NewRun(m, s, e), a);
    var left, right := FirstReaching(m, s), UpperBound(m, e);
    CoveredAround(m, left, [NewRun(m, s, e)], right, a);
    CoveredAround(m, left, m[left..right], right, a);
    assert m == m[..left] + m[left..right] + m[right..];
  }

  lemma OneRun(run: Interval, a: nat)
    ensures Covered([run], a) <==> Holds(run, a)
  {
    assert [run][0] == run;
  }

  // ---------------------------------------------------------------- what the result means

  lemma RequestedSnoc(rs: seq<Range>, r: Range, a: nat)
    ensures Requested(rs + [r], a) <==> Requested(rs, a) || InRange(a, r)
  {
    assert (rs + [r])[|rs|] == r;
    if Requested(rs, a) {
      var i :| 0 <= i < |rs| && InRange(a, rs[i]);
      assert InRange(a, (rs + [r])[i]);
    }
  }

  function Insert(m: seq<Interval>, r: Range): (m': seq<Interval>)
    requires WellFormed(m) && !Wraps(r)
    ensures WellFormed(m')
  {
    if r.length == 0 then m else WellMerged(m, r.start, r.start + r.length)
  }

  /** The merge, together with the fact that it stays well-formed. */
  function WellMerged(m: seq<Interval>, s: uint64, e: uint64): (m': seq<Interval>)
    requires WellFormed(m) && s < e
    ensures WellFormed(m') && m' == Merged(m, s, e)
  {
    MergedWellFormed(m, s, e);
    Merged(m, s, e)
  }

  lemma InsertCovers(m: seq<Interval>, r: Range, a: nat)
    requires WellFormed(m) && !Wraps(r)
    ensures Covered(Insert(m, r), a) <==> Covered(m, a) || InRange(a, r)
  {
    if r.length > 0 {
      MergedCovers(m, r.start, r.start + r.length, a);
    }
  }

  /** One insertion keeps the meaning, whatever was inserted before. */
  lemma InsertDenotes(m: seq<Interval>, rs: seq<Range>, r: Range)
    requires RunsOf(m, rs) && !Wraps(r)
    ensures RunsOf(Insert(m, r), rs + [r])
  {
    forall a: nat
      ensures Covered(Insert(m, r), a) <==> Requested(rs + [r], a)
    {
      InsertCovers(m, r, a);
      RequestedSnoc(rs, r, a);
    }
  }

  /** Reference semantics of a whole run of insertions into an empty set. */
  function InsertAll(rs: seq<Range>): (m: seq<Interval>)
    requires forall i :: 0 <= i < |rs| ==> !Wraps(rs[i])
    ensures WellFormed(m)
  {
    if rs == [] then [] else Insert(InsertAll(rs[..|rs| - 1]), rs[|rs| - 1])
  }

  lemma {:induction false} InsertAllDenotes(rs: seq<Range>)
    requires forall i :: 0 <= i < |rs| ==> !Wraps(rs[i])
    ensures RunsOf(InsertAll(rs), rs)
  {
    if rs != [] {
      var n := |rs| - 1;
      InsertAllDenotes(rs[..n]);
      InsertDenotes(InsertAll(rs[..n]), rs[..n], rs[n]);
      assert rs[..n] + [rs[n]] == rs;
    }
  }

  predicate SameCoverage(m1: seq<Interval>, m2: seq<Interval>, a: nat) {
    Covered(m1, a) <==> Covered(m2, a)
  }

  lemma TailCoverage(m: seq<Interval>, a: nat)
    requires WellFormed(m) && m != []
    ensures Covered(m[1..], a) <==> Covered(m, a) && a >= m[0].end
  {
    if Covered(m[1..], a) {
      var i :| 0 <= i < |m[1..]| && Holds(m[1..][i], a);
      assert Holds(m[i + 1], a);
    }
    if Covered(m, a) && a >= m[0].end {
      var i :| 0 <= i < |m| && Holds(m[i], a);
      assert Holds(m[1..][i - 1], a);
    }
  }

  /** The first run ends no later than the first run of a set that covers no more. */
  lemma FirstRun(m1: seq<Interval>, m2: seq<Interval>)
    requires WellFormed(m1) && WellFormed(m2) && m1 != []
    requires forall a: nat :: SameCoverage(m1, m2, a)
    ensures m2 != [] && m2[0].start <= m1[0].start
    ensures m2[0].start == m1[0].start ==> m1[0].end <= m2[0].end
  {
    assert Holds(m1[0], m1[0].start);
    assert SameCoverage(m1, m2, m1[0].start);
    var first, end := m1[0], m2[0].end;
    assert SameCoverage(m1, m2, end);
    assert Holds(first, end) ==> Covered(m1, end);
    assert !Covered(m2, end);
  }

  /** The list of runs of a set of addresses is unique. */
  lemma {:induction false} Canonical(m1: seq<Interval>, m2: seq<Interval>)
    requires WellFormed(m1) && WellFormed(m2)
    requires forall a: nat :: SameCoverage(m1, m2, a)
    ensures m1 == m2
  {
    if m1 != [] {
      FirstRun(m1, m2);
    }
    if m2 != [] {
      forall a: nat ensures SameCoverage(m2, m1, a) { assert SameCoverage(m1, m2, a); }
      FirstRun(m2, m1);
    }
    if m1 != [] {
      forall a: nat ensures SameCoverage(m1[1..], m2[1..], a) {
        assert SameCoverage(m1, m2, a);
        TailCoverage(m1, a);
        TailCoverage(m2, a);
      }
      Canonical(m1[1..], m2[1..]);
      assert m1 == [m1[0]] + m1[1..] && m2 == [m2[0]] + m2[1..];
    }
  }

  /** The map does not depend on the order or the multiplicity of the insertions. */
  lemma OrderIndependent(rs1: seq<Range>, m1: seq<Interval>, rs2: seq<Range>, m2: seq<Interval>)
    requires RunsOf(m1, rs1) && RunsOf(m2, rs2)
    requires forall r :: r in rs1 <==> r in rs2
    ensures m1 == m2
  {
    forall a: nat ensures SameCoverage(m1, m2, a) {
      if Requested(rs1, a) {
        var i :| 0 <= i < |rs1| && InRange(a, rs1[i]);
        assert rs1[i] in rs2;
      }
      if Requested(rs2, a) {
        var i :| 0 <= i < |rs2| && InRange(a, rs2[i]);
        assert rs2[i] in rs1;
      }
    }
    Canonical(m1, m2);
  }

  predicate Spans(iv: Interval, lo: nat, hi: nat) {
    iv.start <= lo && hi < iv.end
  }

  /** A connected range that was requested lies in exactly one run. */
  lemma ExactlyOneRun(m: seq<Interval>, lo: nat, hi: nat) returns (i: nat)
    requires WellFormed(m) && lo <= hi
    requires forall a :: lo <= a <= hi ==> Covered(m, a)
    ensures i < |m| && Spans(m[i], lo, hi)
    ensures forall k :: 0 <= k < |m| && k != i ==> m[k].end <= lo || hi < m[k].start
  {
    assert Covered(m, lo);
    i :| 0 <= i < |m| && Holds(m[i], lo);
    assert hi < m[i].end by {
      assert Covered(m, m[i].end) || hi < m[i].end;
    }
  }

  // ---------------------------------------------------------------- the insertion loop

  function Erase(m: seq<Interval>, i: nat): (r: seq<Interval>)
    requires KeySorted(m) && i < |m|
    ensures KeySorted(r) && |r| == |m| - 1
  {
    m[..i] + m[i + 1..]
  }

  /**
   Where the insertion of [s, e) into m stands: the entries before index j of m have been looked
   at, those from `left` on have been taken out and swallowed by [lo, hi).
   */
  predicate Progress(m: seq<Interval>, s: uint64, e: uint64,
                     cur: seq<Interval>, it: nat, j: nat, lo: uint64, hi: uint64)
    requires WellFormed(m) && s < e
  {
    var left, right := FirstReaching(m, s), UpperBound(m, e);
    && it <= j <= |m|
    && cur == m[..it] + m[j..]
    && (it == j ==> j <= left && lo == s && hi == e)
    && (it < j ==> it == left && j <= right && lo == Min64(s, m[left].start) && hi == Max64(e, m[j - 1].end))
  }

  lemma ProgressStart(m: seq<Interval>, s: uint64, e: uint64, it: nat)
    requires WellFormed(m) && s < e
    requires it == (if UpperBound(m, s) == 0 then 0 else UpperBound(m, s) - 1)
    ensures Progress(m, s, e, m, it, it, s, e)
  {
    var left := FirstReaching(m, s);
    assert left == |m| || m[left].end >= s;
    assert it == 0 || m[it].start <= s;
    assert m[..it] + m[it..] == m;
  }

  lemma ProgressStep(m: seq<Interval>, s: uint64, e: uint64,
                     cur: seq<Interval>, it: nat, j: nat, lo: uint64, hi: uint64)
    requires WellFormed(m) && s < e && Progress(m, s, e, cur, it, j, lo, hi)
    requires KeySorted(cur) && it < |cur| && cur[it].start <= hi
    ensures cur[it].end >= lo ==>
              Progress(m, s, e, Erase(cur, it), it, j + 1, Min64(lo, cur[it].start), Max64(hi, cur[it].end))
    ensures cur[it].end < lo ==> Progress(m, s, e, cur, it + 1, j + 1, lo, hi)
  {
    assert cur[it] == m[j];
    assert Erase(cur, it) == m[..it] + m[j + 1..];
    assert it == j ==> cur == m[..it + 1] + m[j + 1..];
  }

  lemma ProgressStops(m: seq<Interval>, s: uint64, e: uint64,
                      cur: seq<Interval>, it: nat, j: nat, lo: uint64, hi: uint64)
    requires WellFormed(m) && s < e && Progress(m, s, e, cur, it, j, lo, hi)
    requires it < |cur| ==> cur[it].start > hi
    ensures it == FirstReaching(m, s) && j == UpperBound(m, e) && Interval(lo, hi) == NewRun(m, s, e)
  {
    var left, right := FirstReaching(m, s), UpperBound(m, e);
    assert it < |cur| ==> cur[it] == m[j];
    assert right == |m| || m[right].start > e;
    assert left == |m| || m[left].end >= s;
    assert left <= right;
  }

  /** Storing the grown range puts it where the swallowed entries were. */
  lemma AssignAt(a: seq<Interval>, b: seq<Interval>, k: uint64, end: uint64)
    requires KeySorted(a + b)
    requires a == [] || a[|a| - 1].start < k
    requires b == [] || k < b[0].start
    ensures Assign(a + b, k, end) == a + [Interval(k, end)] + b
  {
    var m := a + b;
    assert a == [] || m[|a| - 1] == a[|a| - 1];
    assert b == [] || m[|a|] == b[0];
    assert UpperBound(m, k) == |a|;
    assert m[..|a|] == a && m[|a|..] == b;
  }

  lemma ProgressEnd(m: seq<Interval>, s: uint64, e: uint64,
                    cur: seq<Interval>, it: nat, j: nat, lo: uint64, hi: uint64)
    requires WellFormed(m) && s < e && Progress(m, s, e, cur, it, j, lo, hi)
    requires KeySorted(cur) && (it < |cur| ==> cur[it].start > hi)
    ensures Assign(cur, lo, hi) == Merged(m, s, e)
  {
    ProgressStops(m, s, e, cur, it, j, lo, hi);
    var a, b := m[..it], m[j..];
    assert a == [] || a[|a| - 1] == m[it - 1];
    assert b == [] || (b[0] == m[j] == cur[it]);
    assert lo == s || lo == m[it].start;
    AssignAt(a, b, lo, hi);
  }

  /** The insertion loop from iterator position `it` on, for any map, well-formed or not. */
  function Sweep(m: seq<Interval>, it: nat, lo: uint64, hi: uint64): (r: seq<Interval>)
    requires KeySorted(m) && it <= |m|
    ensures KeySorted(r)
    decreases |m| - it
  {
    if it < |m| && m[it].start <= hi then
      if m[it].end >= lo
      then Sweep(Erase(m, it), it, Min64(lo, m[it].start), Max64(hi, m[it].end))
      else Sweep(m, it + 1, lo, hi)
    else
      Assign(m, lo, hi)
  }

  lemma {:induction false} SweepIsMerged(m: seq<Interval>, s: uint64, e: uint64,
                                         cur: seq<Interval>, it: nat, j: nat, lo: uint64, hi: uint64)
    requires WellFormed(m) && s < e && Progress(m, s, e, cur, it, j, lo, hi)
    requires KeySorted(cur) && it <= |cur|
    ensures Sweep(cur, it, lo, hi) == Merged(m, s, e)
    decreases |cur| - it
  {
    hide Progress, Merged, Assign, WellFormed, KeySorted;
    if it < |cur| && cur[it].start <= hi {
      ProgressStep(m, s, e, cur, it, j, lo, hi);
      if cur[it].end >= lo {
        SweepIsMerged(m, s, e, Erase(cur, it), it, j + 1, Min64(lo, cur[it].start), Max64(hi, cur[it].end));
      } else {
        SweepIsMerged(m, s, e, cur, it + 1, j + 1, lo, hi);
      }
    } else {
      ProgressEnd(m, s, e, cur, it, j, lo, hi);
    }
  }

  /** Where the loop starts: the last entry that starts at or before `start`. */
  function StartIndex(m: seq<Interval>, start: uint64): (it: nat)
    requires KeySorted(m)
    ensures it <= |m|
  {
    var above := UpperBound(m, start);
    if above == 0 then 0 else above - 1
  }

  /** The map after the call InsertAndMergeIfNeeded(start, length): the end wraps at 64 bits. */
  function Inserted(m: seq<Interval>, start: uint64, length: uint64): (r: seq<Interval>)
    requires KeySorted(m)
    ensures KeySorted(r)
  {
    if length == 0 then m else Sweep(m, StartIndex(m, start), start, Add64(start, length))
  }

  lemma SweepFromStart(m: seq<Interval>, s: uint64, e: uint64)
    requires WellFormed(m) && KeySorted(m) && s < e
    ensures Sweep(m, StartIndex(m, s), s, e) == Merged(m, s, e)
  {
    var it := StartIndex(m, s);
    ProgressStart(m, s, e, it);
    SweepIsMerged(m, s, e, m, it, it, s, e);
  }

  lemma WellFormedIsSorted(m: seq<Interval>)
    requires WellFormed(m)
    ensures KeySorted(m)
  {
    assert forall i :: 0 <= i < |m| ==> m[i].start < m[i].end;
  }

  /** On a well-formed map, and for a request that does not wrap, the loop computes the merge. */
  lemma InsertedIsInsert(m: seq<Interval>, start: uint64, length: uint64)
    requires WellFormed(m) && !Wraps(Range(start, length))
    ensures KeySorted(m) && Inserted(m, start, length) == Insert(m, Range(start, length))
  {
    hide WellFormed, KeySorted, Sweep, Merged, StartIndex;
    WellFormedIsSorted(m);
    if length > 0 {
      SweepFromStart(m, start, start + length);
    }
  }

  // ---------------------------------------------------------------- whole runs, wrapping or not

  /** The map after a list of calls, starting from map m. */
  function InsertedFrom(m: seq<Interval>, rs: seq<Range>): (r: seq<Interval>)
    requires KeySorted(m)
    ensures KeySorted(r)
  {
    if rs == [] then m
    else Inserted(InsertedFrom(m, rs[..|rs| - 1]), rs[|rs| - 1].start, rs[|rs| - 1].length)
  }

  lemma InsertedFromSnoc(m: seq<Interval>, rs: seq<Range>, r: Range)
    requires KeySorted(m)
    ensures InsertedFrom(m, rs + [r]) == Inserted(InsertedFrom(m, rs), r.start, r.length)
  {
    hide KeySorted, Inserted;
    assert (rs + [r])[..|rs|] == rs;
  }

  lemma {:induction false} InsertedFromConcat(m: seq<Interval>, a: seq<Range>, b: seq<Range>)
    requires KeySorted(m)
    ensures InsertedFrom(m, a + b) == InsertedFrom(InsertedFrom(m, a), b)
  {
    hide KeySorted, Inserted;
    if b == [] {
      assert a + b == a;
    } else {
      var n := |b| - 1;
      InsertedFromConcat(m, a, b[..n]);
      assert a + b == (a + b[..n]) + [b[n]];
      InsertedFromSnoc(m, a + b[..n], b[n]);
    }
  }

  lemma {:induction false} RunIsInsertAll(rs: seq<Range>)
    requires forall i :: 0 <= i < |rs| ==> !Wraps(rs[i])
    ensures KeySorted([]) && InsertedFrom([], rs) == InsertAll(rs)
  {
    hide Inserted, Insert, Wraps, WellFormed;
    if rs != [] {
      var n := |rs| - 1;
      RunIsInsertAll(rs[..n]);
      InsertedIsInsert(InsertAll(rs[..n]), rs[n].start, rs[n].length);
    }
  }

  /** Not empty, and reaching to 2^64 at most, for which the stored end is 0. */
  predicate Bounded(iv: Interval) {
    iv.start < iv.end || (iv.end == 0 && iv.start > 0)
  }

  predicate AllBounded(m: seq<Interval>) {
    forall i :: 0 <= i < |m| ==> Bounded(m[i])
  }

  lemma AssignBounded(m: seq<Interval>, k: uint64, end: uint64)
    requires KeySorted(m) && AllBounded(m) && Bounded(Interval(k, end))
    ensures AllBounded(Assign(m, k, end))
  {
    hide KeySorted;
  }

  lemma {:induction false} SweepBounded(m: seq<Interval>, it: nat, lo: uint64, hi: uint64)
    requires KeySorted(m) && it <= |m| && AllBounded(m) && Bounded(Interval(lo, hi))
    ensures AllBounded(Sweep(m, it, lo, hi))
    decreases |m| - it
  {
    if it < |m| && m[it].start <= hi {
      if m[it].end >= lo {
        SweepBounded(Erase(m, it), it, Min64(lo, m[it].start), Max64(hi, m[it].end));
      } else {
        SweepBounded(m, it + 1, lo, hi);
      }
    } else {
      AssignBounded(m, lo, hi);
    }
  }

  /** Even a run in which a range ends exactly at 2^64 never makes an empty interval. */
  lemma {:induction false} RunBounded(m: seq<Interval>, rs: seq<Range>)
    requires KeySorted(m) && AllBounded(m)
    requires forall i :: 0 <= i < |rs| ==> rs[i].start + rs[i].length <= UINT64_MOD
    ensures AllBounded(InsertedFrom(m, rs))
  {
    hide KeySorted, AllBounded;
    if rs != [] {
      var n := |rs| - 1;
      RunBounded(m, rs[..n]);
      var before, r := InsertedFrom(m, rs[..n]), rs[n];
      if r.length > 0 {
        SweepBounded(before, StartIndex(before, r.start), r.start, Add64(r.start, r.length));
      }
    }
  }

  // ---------------------------------------------------------------- the class

  class DisjointIntervalSet {
    var intervals: seq<Interval>

    constructor ()
      ensures intervals == []
    {
      intervals := [];
    }

    method InsertAndMergeIfNeeded(start: uint64, length: uint64)
      requires KeySorted(intervals)
      modifies this
      ensures intervals == Inserted(old(intervals), start, length)
      ensures old(WellFormed(intervals)) && !Wraps(Range(start, length)) ==>
                intervals == Insert(old(intervals), Range(start, length))
    {
      if WellFormed(intervals) && !Wraps(Range(start, length)) {
        InsertedIsInsert(intervals, start, length);
      }
      if length == 0 {
        return;
      }
      var lo: uint64, hi: uint64 := start, Add64(start, length);
      var it: nat := UpperBound(intervals, lo);
      if it != 0 {
        it := it - 1;
      }
      while it < |intervals| && intervals[it].start <= hi
        invariant it <= |intervals| && KeySorted(intervals)
        invariant Sweep(intervals, it, lo, hi) == Inserted(old(intervals), start, length)
        decreases |intervals| - it
      {
        if intervals[it].end >= lo {
          lo, hi := Min64(lo, intervals[it].start), Max64(hi, intervals[it].end);
          intervals := Erase(intervals, it);
        } else {
          it := it + 1;
        }
      }
      intervals := Assign(intervals, lo, hi);
    }
  }
}
