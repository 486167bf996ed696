/**
 When a run of insertions represents its requests exactly, although some of them end at 2^64: the exact
 conditions on the requests, for either meaning of "exactly".
 */
module ExactRuns {
  import opened Bytes
  import opened IntervalSet
  import opened WrappedRequests

  // ---------------------------------------------------------------- when a run with wrapping requests is exact

  /** Every address below S was requested; they are one run then, which begins at 0. */
  ghost predicate BelowFull(rs: seq<Range>, S: uint64) {
    forall a: nat :: a < S ==> Requested(rs, a)
  }

  predicate StaysBelow(r: Range, S: uint64) {
    r.length == 0 || r.start + r.length <= S
  }

  /** What reaches past S starts there, and will be replaced by a wrapping request. */
  predicate ClearAbove(m: seq<Interval>, S: uint64) {
    forall p :: p in m && p.end > S ==> p.start == S
  }

  /** The entry that reaches to 2^64 is there, and the others end at S or below. */
  predicate EdgeAlone(m: seq<Interval>, S: uint64) {
    Interval(S, 0) in m && forall p :: p in m ==> p.end <= S
  }

  predicate SomeFromZero(m: seq<Interval>, S: uint64) {
    exists p :: p in m && FromZero(p, S)
  }

  lemma FromZeroReaches(m: seq<Interval>, S: uint64)
    requires 0 < S
    ensures SomeFromZero(m, S) <==> SomeReaches(m, 0, S - 1)
  {
    if p :| p in m && FromZero(p, S) {
      assert Spans(p, 0, S - 1);
    }
    if p :| p in m && Spans(p, 0, S - 1) {
      assert FromZero(p, S);
    }
  }

  /** An entry from 0 to S leaves no room for the one from S to 2^64. */
  lemma ZeroExcludesEdge(m: seq<Interval>, S: uint64)
    requires Regular(m, S) && SomeFromZero(m, S)
    ensures Interval(S, 0) !in m
  {
    hide EntryOk, LowApart, KeySorted;
    var p :| p in m && FromZero(p, S);
    assert Interval(S, 0) in m ==> ZeroFirst(p, Interval(S, 0), S);
  }

  lemma ZeroLeavesNoEdge(m: seq<Interval>, S: uint64)
    requires Regular(m, S) && SomeFromZero(m, S)
    ensures !EdgeAlone(m, S)
  {
    hide Regular, SomeFromZero;
    ZeroExcludesEdge(m, S);
  }

  /** A wrapping request is stored, unless an entry reaches from 0 to S. */
  lemma WrapStored(m: seq<Interval>, r: Range, S: uint64, p: Interval)
    requires Regular(m, S) && RequestOk(r, S) && Wraps(r) && !SomeFromZero(m, S)
    ensures p in Inserted(m, r.start, r.length) <==> p == Interval(S, 0) || (p in m && p.start != S)
  {
    var it := StartIndex(m, S);
    AssignElems(m, S, 0, p);
    if it < |m| && m[it].start == 0 {
      assert m[it] in m && !FromZero(m[it], S);
      assert Sweep(m, it, S, 0) == Sweep(m, it + 1, S, 0);
      assert it + 1 < |m| ==> m[it + 1].start > 0;
    }
  }

  /** A wrapping request leaves its entry alone above S exactly when nothing else reached past S in the map before. */
  lemma AfterWrap(m: seq<Interval>, r: Range, S: uint64)
    requires Regular(m, S) && RequestOk(r, S) && Wraps(r)
    ensures EdgeAlone(Inserted(m, r.start, r.length), S) <==> ClearAbove(m, S) && !SomeFromZero(m, S)
  {
    var m' := Inserted(m, r.start, r.length);
    InsertedRegular(m, r, S);
    FromZeroReaches(m, S);
    FromZeroReaches(m', S);
    hide Inserted, LowApart, ZeroFirst, SomeFromZero, Regular, SomeReaches;
    if SomeFromZero(m, S) {
      InsertedKeeps(m, r, S, 0, S - 1);
      ZeroExcludesEdge(m', S);
    } else {
      forall p: Interval ensures p in m' <==> p == Interval(S, 0) || (p in m && p.start != S) {
        WrapStored(m, r, S, p);
      }
    }
  }

  lemma {:induction false} SweepStaysAlone(m: seq<Interval>, it: nat, lo: uint64, hi: uint64, S: uint64)
    requires Regular(m, S) && it <= |m| && Passed(m, it, lo, hi, S) && OnlyEdgeAt(m, it, lo, hi)
    requires EdgeAlone(m, S) && lo < hi <= S
    ensures EdgeAlone(Sweep(m, it, lo, hi), S) || SomeFromZero(Sweep(m, it, lo, hi), S)
    decreases |m| - it
  {
    hide EntryOk, LowApart, ZeroFirst, Erase, Assign, OnlyEdgeAt, SomeFromZero;
    if it < |m| && m[it].start <= hi {
      if m[it].end >= lo {
        var m', lo', hi' := Erase(m, it), Min64(lo, m[it].start), Max64(hi, m[it].end);
        RegularErase(m, it, S);
        PassedSwallow(m, it, lo, hi, S);
        EdgeSwallow(m, it, lo, hi, S);
        if m[it] == Interval(S, 0) {
          SweepKeeps(m', it, lo', hi', S, 0, S - 1);
          FromZeroReaches(Sweep(m', it, lo', hi'), S);
        } else {
          forall p | p in m' ensures p in m {
            EraseElems(m, it, p);
          }
          EraseElems(m, it, Interval(S, 0));
          SweepStaysAlone(m', it, lo', hi', S);
        }
      } else {
        PassedSkip(m, it, lo, hi, S);
        EdgeSkip(m, it, lo, hi, S);
        SweepStaysAlone(m, it + 1, lo, hi, S);
      }
    } else {
      forall p: Interval ensures p in Assign(m, lo, hi) <==> p == Interval(lo, hi) || (p in m && p.start != lo) {
        AssignElems(m, lo, hi, p);
      }
    }
  }

  lemma PlainKeepsAlone(m: seq<Interval>, r: Range, S: uint64)
    requires Regular(m, S) && RequestOk(r, S) && !Wraps(r)
    requires EdgeAlone(Inserted(m, r.start, r.length), S)
    ensures EdgeAlone(m, S) && StaysBelow(r, S)
  {
    hide LowApart, ZeroFirst, KeySorted, Sweep, StartIndex;
    var m' := Inserted(m, r.start, r.length);
    if r.length > 0 {
      SweepAddsOrdinary(m, StartIndex(m, r.start), r.start, r.start + r.length, S);
      InsertedKeeps(m, r, S, r.start, r.start + r.length - 1);
      forall p | p in m ensures p.end <= S {
        if p.start < p.end {
          assert Spans(p, p.start, p.end - 1);
          InsertedKeeps(m, r, S, p.start, p.end - 1);
        } else {
          assert EntryOk(p, S);
        }
      }
    }
  }

  lemma BelowKeepsAlone(m: seq<Interval>, r: Range, S: uint64)
    requires Regular(m, S) && RequestOk(r, S) && !Wraps(r) && EdgeAlone(m, S) && StaysBelow(r, S)
    ensures var m' := Inserted(m, r.start, r.length); EdgeAlone(m', S) || SomeFromZero(m', S)
  {
    hide LowApart, ZeroFirst, Sweep, StartIndex, EdgeAlone, SomeFromZero, Passed, OnlyEdgeAt;
    if r.length > 0 {
      StartPassed(m, r, S);
      EdgeStart(m, r.start, r.start + r.length);
      SweepStaysAlone(m, StartIndex(m, r.start), r.start, r.start + r.length, S);
    }
  }

  /** An ordinary request leaves that entry alone exactly when it was alone, and the request stays below S. */
  lemma AfterPlain(m: seq<Interval>, r: Range, S: uint64)
    requires Regular(m, S) && RequestOk(r, S) && !Wraps(r)
    ensures var m' := Inserted(m, r.start, r.length);
            EdgeAlone(m', S) <==> EdgeAlone(m, S) && StaysBelow(r, S) && !SomeFromZero(m', S)
  {
    hide EntryOk, LowApart, ZeroFirst, KeySorted, Inserted, EdgeAlone, SomeFromZero, StaysBelow, RequestOk, Wraps;
    var m' := Inserted(m, r.start, r.length);
    InsertedRegular(m, r, S);
    if EdgeAlone(m', S) {
      PlainKeepsAlone(m, r, S);
      if SomeFromZero(m', S) {
        ZeroLeavesNoEdge(m', S);
      }
    }
    if EdgeAlone(m, S) && StaysBelow(r, S) {
      BelowKeepsAlone(m, r, S);
    }
  }

  /** The j-th request wraps, nothing but an entry at S reached past S when it came, and nothing reached there later. */
  predicate CleanFrom(rs: seq<Range>, S: uint64, j: nat)
    requires KeySorted([])
  {
    && j < |rs| && Wraps(rs[j])
    && ClearAbove(InsertedFrom([], rs[..j]), S)
    && forall k :: j < k < |rs| ==> StaysBelow(rs[k], S)
  }

  predicate SomeClean(rs: seq<Range>, S: uint64)
    requires KeySorted([])
  {
    exists j: nat :: j < |rs| && CleanFrom(rs, S, j)
  }

  lemma CleanSnoc(rs: seq<Range>, S: uint64)
    requires WrapsOnlyAt(rs, S) && rs != []
    ensures KeySorted([])
    ensures var n := |rs| - 1;
            SomeClean(rs, S) <==> if Wraps(rs[n]) then ClearAbove(InsertedFrom([], rs[..n]), S)
                                  else SomeClean(rs[..n], S) && StaysBelow(rs[n], S)
  {
    hide ClearAbove, InsertedFrom;
    var n := |rs| - 1;
    assert Wraps(rs[n]) ==> !StaysBelow(rs[n], S) by { assert RequestOk(rs[n], S); }
    forall j: nat | j < n
      ensures CleanFrom(rs, S, j) <==> CleanFrom(rs[..n], S, j) && StaysBelow(rs[n], S)
    {
      assert rs[..n][..j] == rs[..j];
      assert forall k :: j < k < n ==> rs[..n][k] == rs[k];
    }
    if SomeClean(rs[..n], S) && StaysBelow(rs[n], S) {
      var j: nat :| j < n && CleanFrom(rs[..n], S, j);
      assert CleanFrom(rs, S, j);
    }
    if Wraps(rs[n]) && ClearAbove(InsertedFrom([], rs[..n]), S) {
      assert CleanFrom(rs, S, n);
    }
  }

  lemma {:induction false} RunLeavesAlone(rs: seq<Range>, S: uint64)
    requires WrapsOnlyAt(rs, S)
    ensures KeySorted([])
    ensures var m := InsertedFrom([], rs);
            EdgeAlone(m, S) <==> SomeClean(rs, S) && !SomeFromZero(m, S)
  {
    if rs == [] {
    } else {
      var n := |rs| - 1;
      RunLeavesAlone(rs[..n], S);
      CleanSnoc(rs, S);
      RunRegular(rs[..n], S);
      LastLeavesAlone(InsertedFrom([], rs[..n]), rs[n], S, SomeClean(rs[..n], S));
    }
  }

  lemma LastLeavesAlone(m: seq<Interval>, r: Range, S: uint64, clean: bool)
    requires Regular(m, S) && RequestOk(r, S)
    requires EdgeAlone(m, S) <==> clean && !SomeFromZero(m, S)
    ensures var m' := Inserted(m, r.start, r.length);
            EdgeAlone(m', S)
            <==> (if Wraps(r) then ClearAbove(m, S) else clean && StaysBelow(r, S)) && !SomeFromZero(m', S)
  {
    hide SomeFromZero, SomeReaches, ClearAbove, EdgeAlone, StaysBelow, LowApart, ZeroFirst, KeySorted, EntryOk, Inserted;
    var m' := Inserted(m, r.start, r.length);
    InsertedRegular(m, r, S);
    FromZeroReaches(m, S);
    FromZeroReaches(m', S);
    if SomeFromZero(m, S) {
      InsertedKeeps(m, r, S, 0, S - 1);
    }
    if Wraps(r) {
      AfterWrap(m, r, S);
      if SomeFromZero(m', S) {
        ZeroLeavesNoEdge(m', S);
      }
    } else {
      AfterPlain(m, r, S);
    }
  }

  /** One entry reaches from 0 to S exactly when every address below S was requested. */
  lemma FromZeroIff(rs: seq<Range>, S: uint64)
    requires WrapsOnlyAt(rs, S)
    ensures KeySorted([]) && (SomeFromZero(InsertedFrom([], rs), S) <==> BelowFull(rs, S))
  {
    hide RequestOk, InsertedFrom, Regular, Requested;
    var m := InsertedFrom([], rs);
    RunRegular(rs, S);
    forall a: nat | a < S ensures Spanned(m, a) <==> Requested(rs, a) {
      BelowIsExact(rs, S, a);
    }
    if p :| p in m && FromZero(p, S) {
      assert forall a: nat :: a < S ==> InSpan(p, a);
    }
    if BelowFull(rs, S) {
      assert Spanned(m, 0);
      FullIsOneEntry(m, S);
    }
  }

  lemma FullIsOneEntry(m: seq<Interval>, S: uint64)
    requires Regular(m, S) && forall a: nat :: a < S ==> Spanned(m, a)
    ensures SomeFromZero(m, S)
  {
    SpannedBelow(m, S, 0);
    var p :| p in m && Holds(p, 0);
    if p.end < S {
      assert Spanned(m, p.end);
      SpannedBelow(m, S, p.end);
      var q :| q in m && Holds(q, p.end);
      OneAfter(m, S, p, q);
    }
    assert FromZero(p, S);
  }

  lemma OneAfter(m: seq<Interval>, S: uint64, p: Interval, q: Interval)
    requires Regular(m, S) && p in m && q in m && p.start == 0 && p.end < S && Holds(p, 0)
    ensures !Holds(q, p.end)
  {
    hide ZeroFirst;
    assert LowApart(p, q, S);
    var i :| 0 <= i < |m| && m[i] == p;
    var j :| 0 <= j < |m| && m[j] == q;
  }

  // ---------------------------------------------------------------- the exact conditions

  /**
   Nothing wraps; or some address below S is not requested, and for some wrapping request nothing but an
   entry at S reached past S before it and no request reaches past S behind it.
   */
  ghost predicate Harmless(rs: seq<Range>, S: uint64)
    requires KeySorted([])
  {
    !SomeWraps(rs) || (!BelowFull(rs, S) && SomeClean(rs, S))
  }

  lemma NoWrapsDenotes(rs: seq<Range>)
    requires !SomeWraps(rs)
    ensures KeySorted([]) && Denotes(InsertedFrom([], rs), rs) && EachOnce(InsertedFrom([], rs), rs)
  {
    hide WellFormed, RunsOf, Denotes, EachOnce, InsertedFrom, Wraps;
    assert forall i :: 0 <= i < |rs| ==> !Wraps(rs[i]);
    RunIsInsertAll(rs);
    InsertAllDenotes(rs);
    RunsOfDenotes(InsertAll(rs), rs);
    DenotesIsEachOnce(InsertAll(rs), rs);
  }

  /** A wrapping request asks for all addresses from S on. */
  lemma RequestedAbove(rs: seq<Range>, S: uint64, a: nat)
    requires WrapsOnlyAt(rs, S) && SomeWraps(rs) && a >= S
    ensures Requested(rs, a) <==> a < UINT64_MOD
  {
    if a < UINT64_MOD {
      var i :| 0 <= i < |rs| && Wraps(rs[i]);
      assert RequestOk(rs[i], S) && InRange(a, rs[i]);
    }
    if i :| 0 <= i < |rs| && InRange(a, rs[i]) {
      assert RequestOk(rs[i], S);
    }
  }

  lemma AloneAbove(m: seq<Interval>, S: uint64, a: nat)
    requires Regular(m, S) && EdgeAlone(m, S) && a >= S
    ensures (Spanned(m, a) <==> a < UINT64_MOD) && Single(m, a)
  {
    hide LowApart, ZeroFirst, KeySorted;
    assert InSpan(Interval(S, 0), a) <==> a < UINT64_MOD;
    forall p | p in m && InSpan(p, a) ensures p == Interval(S, 0) && a < UINT64_MOD {
      assert EntryOk(p, S);
    }
  }

  /** Where something wraps, the entry to 2^64 must be there and alone. */
  lemma EachOnceIsAlone(m: seq<Interval>, S: uint64)
    requires Regular(m, S) && Spanned(m, UINT64_MOD - 1)
    requires forall a: nat :: a >= S ==> Single(m, a)
    ensures EdgeAlone(m, S)
  {
    hide LowApart, ZeroFirst, KeySorted;
    var z :| z in m && InSpan(z, UINT64_MOD - 1);
    assert z == Interval(S, 0) by { assert EntryOk(z, S); }
    forall p | p in m ensures p.end <= S {
      var a := Max64(p.start, S);
      assert EntryOk(p, S) && Single(m, a) && InSpan(z, a);
      assert p.end > S ==> InSpan(p, a);
    }
  }

  lemma WrappedEachOnceIff(rs: seq<Range>, S: uint64)
    requires WrapsOnlyAt(rs, S) && SomeWraps(rs)
    ensures KeySorted([]) && (EachOnce(InsertedFrom([], rs), rs) <==> EdgeAlone(InsertedFrom([], rs), S))
  {
    hide RequestOk, Regular, InsertedFrom, Spanned, Single, Requested, EdgeAlone, SomeWraps;
    var m := InsertedFrom([], rs);
    RunRegular(rs, S);
    if EachOnce(m, rs) {
      RequestedAbove(rs, S, UINT64_MOD - 1);
      EachOnceIsAlone(m, S);
    }
    if EdgeAlone(m, S) {
      forall a: nat ensures (Spanned(m, a) <==> Requested(rs, a)) && Single(m, a) {
        if a < S {
          BelowIsExact(rs, S, a);
        } else {
          RequestedAbove(rs, S, a);
          AloneAbove(m, S, a);
        }
      }
    }
  }

  /** A whole run visits each requested address exactly once, and nothing else, exactly when it is harmless. */
  lemma EachOnceIff(rs: seq<Range>, S: uint64)
    requires WrapsOnlyAt(rs, S)
    ensures KeySorted([]) && (EachOnce(InsertedFrom([], rs), rs) <==> Harmless(rs, S))
  {
    hide WrapsOnlyAt, InsertedFrom, EachOnce, EdgeAlone, SomeClean, BelowFull, SomeFromZero, SomeWraps;
    if SomeWraps(rs) {
      WrappedEachOnceIff(rs, S);
      RunLeavesAlone(rs, S);
      FromZeroIff(rs, S);
    } else {
      NoWrapsDenotes(rs);
    }
  }

  lemma AloneIsApart(m: seq<Interval>, S: uint64)
    requires Regular(m, S) && EdgeAlone(m, S) && !Spanned(m, S - 1)
    ensures AllBounded(m) && Apart(m)
  {
    hide ZeroFirst;
    forall p | p in m && p != Interval(S, 0) ensures p.start < p.end < S && LengthOf(p) == p.end - p.start {
      assert EntryOk(p, S) && !InSpan(p, S - 1);
    }
    forall i, j | 0 <= i < j < |m| ensures m[i].start + LengthOf(m[i]) < m[j].start {
      assert m[i] in m && m[j] in m && LowApart(m[i], m[j], S);
    }
    forall i | 0 <= i < |m| ensures Bounded(m[i]) {
      assert m[i] in m;
    }
  }

  lemma ApartLeavesGap(m: seq<Interval>, S: uint64)
    requires Regular(m, S) && EdgeAlone(m, S) && Apart(m)
    ensures !Spanned(m, S - 1)
  {
    hide LowApart, ZeroFirst;
    var j :| 0 <= j < |m| && m[j] == Interval(S, 0);
    forall p | p in m ensures !InSpan(p, S - 1) {
      var i :| 0 <= i < |m| && m[i] == p;
      assert EntryOk(p, S) && (p.start < S ==> i < j);
      assert i < j ==> p.start + LengthOf(p) < S;
    }
  }

  /**
   The entries of a whole run are the maximal runs of the requested addresses exactly when it is harmless and
   nothing that was requested touches a wrapping request from below.
   */
  lemma RunDenotesIff(rs: seq<Range>, S: uint64)
    requires WrapsOnlyAt(rs, S)
    ensures KeySorted([])
    ensures Denotes(InsertedFrom([], rs), rs)
            <==> Harmless(rs, S) && (SomeWraps(rs) ==> !Requested(rs, S - 1))
  {
    hide InsertedFrom, EdgeAlone, Harmless, SomeWraps, Regular, Spanned, Requested, Single, AllBounded, Apart, RequestOk;
    EachOnceIff(rs, S);
    var m := InsertedFrom([], rs);
    if !SomeWraps(rs) {
      NoWrapsDenotes(rs);
    } else {
      RunRegular(rs, S);
      WrappedEachOnceIff(rs, S);
      BelowIsExact(rs, S, S - 1);
      if Denotes(m, rs) {
        DenotesIsEachOnce(m, rs);
        ApartLeavesGap(m, S);
      }
      if EdgeAlone(m, S) && !Spanned(m, S - 1) {
        AloneIsApart(m, S);
      }
    }
  }

  predicate PlainStartsBelow(rs: seq<Range>, S: uint64) {
    forall i :: 0 <= i < |rs| && !Wraps(rs[i]) && rs[i].length > 0 ==> rs[i].start < S
  }

  predicate PlainStaysBelow(rs: seq<Range>, S: uint64) {
    forall i :: 0 <= i < |rs| && !Wraps(rs[i]) ==> StaysBelow(rs[i], S)
  }

  lemma {:induction false} LastWrap(rs: seq<Range>) returns (j: nat)
    requires SomeWraps(rs)
    ensures j < |rs| && Wraps(rs[j]) && forall k :: j < k < |rs| ==> !Wraps(rs[k])
  {
    var n := |rs| - 1;
    if Wraps(rs[n]) {
      j := n;
    } else {
      var i :| 0 <= i < |rs| && Wraps(rs[i]);
      assert Wraps(rs[..n][i]);
      j := LastWrap(rs[..n]);
      assert rs[..n][j] == rs[j];
    }
  }

  lemma PrefixOk(rs: seq<Range>, S: uint64, j: nat)
    requires WrapsOnlyAt(rs, S) && j <= |rs|
    ensures WrapsOnlyAt(rs[..j], S)
  {
  }

  /** Where the other requests stay below S, nothing ever reaches past it but what wraps. */
  lemma StayingIsClean(rs: seq<Range>, S: uint64)
    requires WrapsOnlyAt(rs, S) && SomeWraps(rs) && PlainStaysBelow(rs, S)
    ensures KeySorted([]) && SomeClean(rs, S)
  {
    hide InsertedFrom, RequestOk, Wraps;
    var j := LastWrap(rs);
    PrefixOk(rs, S, j);
    RunRegular(rs[..j], S);
    var m := InsertedFrom([], rs[..j]);
    assert forall i :: 0 <= i < j && !Wraps(rs[..j][i]) ==> StaysBelow(rs[..j][i], S);
    forall p | p in m ensures p.end <= S {
      if p.end > S {
        assert EntryOk(p, S) && Holds(p, p.end - 1);
        HeldIsRequested(rs[..j], S, p.end - 1);
      }
    }
    assert CleanFrom(rs, S, j);
  }

  lemma CleanStays(rs: seq<Range>, S: uint64, i: nat)
    requires WrapsOnlyAt(rs, S) && PlainStartsBelow(rs, S) && KeySorted([]) && SomeClean(rs, S)
    requires i < |rs| && !Wraps(rs[i])
    ensures StaysBelow(rs[i], S)
  {
    hide InsertedFrom, RequestOk, Wraps;
    var j: nat :| j < |rs| && CleanFrom(rs, S, j);
    if i < j && !StaysBelow(rs[i], S) {
      PrefixOk(rs, S, j);
      var r := rs[i];
      assert rs[..j][i] == r;
      RunKeeps(rs[..j], S, i, r.start, r.start + r.length - 1);
    }
  }

  /**
   When all that does not wrap starts below S, the order plays no role: the run is exact exactly when nothing
   wraps, or the rest ends at S or below and leaves some address below S out.
   */
  lemma EachOnceIffBelow(rs: seq<Range>, S: uint64)
    requires WrapsOnlyAt(rs, S) && PlainStartsBelow(rs, S)
    ensures KeySorted([])
    ensures EachOnce(InsertedFrom([], rs), rs)
            <==> !SomeWraps(rs) || (PlainStaysBelow(rs, S) && !BelowFull(rs, S))
  {
    hide InsertedFrom, EachOnce, BelowFull, SomeWraps, WrapsOnlyAt, PlainStartsBelow, SomeClean;
    EachOnceIff(rs, S);
    if SomeWraps(rs) && PlainStaysBelow(rs, S) {
      StayingIsClean(rs, S);
    }
    if SomeWraps(rs) && SomeClean(rs, S) {
      forall i | 0 <= i < |rs| && !Wraps(rs[i]) ensures StaysBelow(rs[i], S) {
        CleanStays(rs, S, i);
      }
    }
  }

  /** Two requests from the same start: stored in this order the run is exact, in the other one it is not. */
  lemma SameStartDependsOnOrder(S: uint64, length: uint64)
    requires 0 < S && 0 < length && S + length < UINT64_MOD
    ensures KeySorted([])
    ensures var plain, wrapping := Range(S, length), Range(S, UINT64_MOD - S);
            && EachOnce(InsertedFrom([], [plain, wrapping]), [plain, wrapping])
            && !EachOnce(InsertedFrom([], [wrapping, plain]), [wrapping, plain])
  {
    hide EachOnce, BelowFull, InsertedFrom;
    var plain, wrapping := Range(S, length), Range(S, UINT64_MOD - S);
    EachOnceIff([plain, wrapping], S);
    EachOnceIff([wrapping, plain], S);
    NotBelowFull([plain, wrapping], S);
    assert SomeClean([plain, wrapping], S) by {
      OneFromEdge(plain, S);
      assert [plain, wrapping][..1] == [plain];
      assert CleanFrom([plain, wrapping], S, 1);
    }
    assert !SomeClean([wrapping, plain], S) by {
      assert !StaysBelow([wrapping, plain][1], S);
    }
    assert Wraps([plain, wrapping][1]) && Wraps([wrapping, plain][0]);
  }

  lemma NotBelowFull(rs: seq<Range>, S: uint64)
    requires 0 < S && forall i :: 0 <= i < |rs| ==> rs[i].start >= S
    ensures !BelowFull(rs, S)
  {
    assert !Requested(rs, 0);
  }

  lemma OneFromEdge(r: Range, S: uint64)
    requires 0 < S && r.start == S && !Wraps(r)
    ensures KeySorted([]) && forall p :: p in InsertedFrom([], [r]) ==> p.start == S
  {
    assert [] + [r] == [r];
    InsertedFromSnoc([], [], r);
    forall p | p in InsertedFrom([], [r]) ensures p.start == S {
      AssignElems([], r.start, Add64(r.start, r.length), p);
    }
  }

  // ---------------------------------------------------------------- addresses from S on

  /** An ordinary entry from elsewhere than S holds the address. */
  predicate HeldElsewhere(m: seq<Interval>, S: uint64, a: nat) {
    exists p :: p in m && Holds(p, a) && p.start != S
  }

  /** Where an entry reaches from 0 to S, a wrapping request changes nothing. */
  lemma WrapSwallowed(m: seq<Interval>, r: Range, S: uint64, p: Interval)
    requires Regular(m, S) && RequestOk(r, S) && Wraps(r) && SomeFromZero(m, S)
    ensures p in m ==> p.start != S
    ensures p in Inserted(m, r.start, r.length) <==> p in m
  {
    hide EntryOk, LowApart, ZeroFirst, StartIndex, Sweep, Assign, Erase;
    ZeroIsFirst(m, S);
    SweepZero(m, S);
    AssignElems(Erase(m, 0), 0, m[0].end, p);
    EraseElems(m, 0, p);
  }

  lemma SweepZero(m: seq<Interval>, S: uint64)
    requires KeySorted(m) && |m| > 0 && 0 < S && FromZero(m[0], S) && forall i :: 0 < i < |m| ==> m[i].start > m[0].end
    ensures Sweep(m, 0, S, 0) == Assign(Erase(m, 0), 0, m[0].end)
  {
    hide Assign;
    assert Erase(m, 0) == m[1..];
  }

  lemma ZeroIsFirst(m: seq<Interval>, S: uint64)
    requires Regular(m, S) && SomeFromZero(m, S)
    ensures |m| > 0 && FromZero(m[0], S) && StartIndex(m, S) == 0
    ensures forall i :: 0 < i < |m| ==> m[i].start > m[0].end
    ensures forall p :: p in m ==> p.start != S
  {
    hide EntryOk, LowApart;
    var z :| z in m && FromZero(z, S);
    var k :| 0 <= k < |m| && m[k] == z;
    assert forall i :: 0 < i < |m| ==> m[0].start < m[i].start;
    forall i | 0 < i < |m| ensures m[i].start > m[0].end {
      assert m[i] in m && m[0].start < m[i].start && ZeroFirst(z, m[i], S);
    }
    var above := UpperBound(m, S);
    assert |m| > 1 ==> m[1].start > S;
    assert forall i :: 0 <= i < above ==> m[i].start <= S;
  }

  /** After a wrapping request an ordinary entry holds what one from elsewhere than S held before. */
  lemma WrapHolds(m: seq<Interval>, r: Range, S: uint64, a: nat)
    requires Regular(m, S) && RequestOk(r, S) && Wraps(r)
    ensures Held(Inserted(m, r.start, r.length), a) <==> HeldElsewhere(m, S, a)
  {
    hide EntryOk, LowApart, ZeroFirst, KeySorted, Inserted, RequestOk, Wraps, SomeFromZero;
    var m' := Inserted(m, r.start, r.length);
    forall p: Interval | Holds(p, a) ensures p in m' <==> p in m && p.start != S {
      if SomeFromZero(m, S) {
        WrapSwallowed(m, r, S, p);
      } else {
        WrapStored(m, r, S, p);
      }
    }
  }

  /** A request that does not wrap adds its own addresses to what ordinary entries hold. */
  lemma PlainHolds(m: seq<Interval>, r: Range, S: uint64, a: nat)
    requires Regular(m, S) && RequestOk(r, S) && !Wraps(r)
    ensures Held(Inserted(m, r.start, r.length), a) <==> Held(m, a) || InRange(a, r)
  {
    hide Sweep, StartIndex, EntryOk, LowApart, ZeroFirst, KeySorted;
    var m' := Inserted(m, r.start, r.length);
    if Held(m', a) && r.length > 0 {
      SweepHolds(m, StartIndex(m, r.start), r.start, r.start + r.length, a);
    }
    if Held(m, a) || InRange(a, r) {
      HeldReaches(m, a);
      InsertedKeeps(m, r, S, a, a);
      HeldReaches(m', a);
    }
  }

  lemma HeldReaches(m: seq<Interval>, a: nat)
    ensures Held(m, a) <==> SomeReaches(m, a, a)
  {
    if p :| p in m && Holds(p, a) {
      assert Spans(p, a, a);
    }
    if p :| p in m && Spans(p, a, a) {
      assert Holds(p, a);
    }
  }

  /** Growing a range that does not start at S keeps the entry to 2^64, or reaches from 0 to it. */
  lemma {:induction false} SweepKeepsEdge(m: seq<Interval>, it: nat, lo: uint64, hi: uint64, S: uint64)
    requires Regular(m, S) && it <= |m| && Passed(m, it, lo, hi, S) && OnlyEdgeAt(m, it, lo, hi)
    requires Interval(S, 0) in m && lo < hi && lo != S
    ensures Interval(S, 0) in Sweep(m, it, lo, hi) || SomeFromZero(Sweep(m, it, lo, hi), S)
    decreases |m| - it
  {
    hide EntryOk, LowApart, ZeroFirst, Erase, Assign, OnlyEdgeAt, SomeFromZero;
    if it < |m| && m[it].start <= hi {
      if m[it].end >= lo {
        var m', lo', hi' := Erase(m, it), Min64(lo, m[it].start), Max64(hi, m[it].end);
        RegularErase(m, it, S);
        PassedSwallow(m, it, lo, hi, S);
        EdgeSwallow(m, it, lo, hi, S);
        if m[it] == Interval(S, 0) {
          SweepKeeps(m', it, lo', hi', S, 0, S - 1);
          FromZeroReaches(Sweep(m', it, lo', hi'), S);
        } else {
          EraseElems(m, it, Interval(S, 0));
          NotAtEdge(m, it, S);
          SweepKeepsEdge(m', it, lo', hi', S);
        }
      } else {
        PassedSkip(m, it, lo, hi, S);
        EdgeSkip(m, it, lo, hi, S);
        SweepKeepsEdge(m, it + 1, lo, hi, S);
      }
    } else {
      AssignElems(m, lo, hi, Interval(S, 0));
    }
  }

  lemma NotAtEdge(m: seq<Interval>, it: nat, S: uint64)
    requires KeySorted(m) && it < |m| && Interval(S, 0) in m && m[it] != Interval(S, 0)
    ensures m[it].start != S
  {
    var k :| 0 <= k < |m| && m[k] == Interval(S, 0);
  }

  /** A range that grows from S replaces that entry. */
  lemma {:induction false} SweepFromEdge(m: seq<Interval>, it: nat, S: uint64, hi: uint64)
    requires KeySorted(m) && it <= |m| && 0 < S < hi && forall k :: it <= k < |m| ==> m[k].start >= S
    ensures Interval(S, 0) !in Sweep(m, it, S, hi)
    decreases |m| - it
  {
    hide Erase, Assign;
    if it < |m| && m[it].start <= hi {
      if m[it].end >= S {
        AfterErase(m, it, S);
        SweepFromEdge(Erase(m, it), it, S, Max64(hi, m[it].end));
      } else {
        SweepFromEdge(m, it + 1, S, hi);
      }
    } else {
      AssignElems(m, S, hi, Interval(S, 0));
    }
  }

  lemma AfterErase(m: seq<Interval>, it: nat, S: uint64)
    requires KeySorted(m) && it < |m| && forall k :: it <= k < |m| ==> m[k].start >= S
    ensures KeySorted(Erase(m, it)) && forall k :: it <= k < |Erase(m, it)| ==> Erase(m, it)[k].start >= S
  {
    assert forall k :: it <= k < |m| - 1 ==> Erase(m, it)[k] == m[k + 1];
  }

  lemma EdgeReplaced(m: seq<Interval>, r: Range, S: uint64)
    requires Regular(m, S) && !Wraps(r) && r.length > 0 && r.start == S && r.start + r.length <= UINT64_MOD
    requires Interval(S, 0) in m
    ensures Interval(S, 0) !in Inserted(m, r.start, r.length)
  {
    var k :| 0 <= k < |m| && m[k] == Interval(S, 0);
    var it, above := StartIndex(m, S), UpperBound(m, S);
    assert k < above && m[above - 1].start <= S;
    assert forall i :: 0 <= i && i + 1 < above ==> m[i].start < m[above - 1].start;
    SweepFromEdge(m, it, S, r.start + r.length);
  }

  /** A request that does not wrap keeps the entry to 2^64 unless it starts there or completes the run from 0 to S. */
  lemma PlainKeepsEdge(m: seq<Interval>, r: Range, S: uint64)
    requires Regular(m, S) && RequestOk(r, S) && !Wraps(r)
    ensures var m' := Inserted(m, r.start, r.length);
            Interval(S, 0) in m'
            <==> Interval(S, 0) in m && (r.length == 0 || r.start != S) && !SomeFromZero(m', S)
  {
    hide Sweep, StartIndex, EntryOk, LowApart, ZeroFirst, SomeFromZero, KeySorted, Passed, OnlyEdgeAt;
    var m' := Inserted(m, r.start, r.length);
    InsertedRegular(m, r, S);
    if r.length == 0 {
      if SomeFromZero(m, S) {
        ZeroExcludesEdge(m, S);
      }
    } else {
      var it, end := StartIndex(m, r.start), r.start + r.length;
      if Interval(S, 0) in m' {
        EntriesOrdinary(m, S);
        SweepAddsOrdinary(m, it, r.start, end, S);
      }
      if SomeFromZero(m', S) {
        ZeroExcludesEdge(m', S);
      }
      if Interval(S, 0) in m {
        if r.start == S {
          EdgeReplaced(m, r, S);
        } else {
          StartPassed(m, r, S);
          EdgeStart(m, r.start, end);
          SweepKeepsEdge(m, it, r.start, end, S);
        }
      }
    }
  }

  lemma EntriesOrdinary(m: seq<Interval>, S: uint64)
    requires Regular(m, S)
    ensures forall p :: p in m ==> EntryOk(p, S)
  {
  }

  /** No request from the j-th on starts at S without wrapping. */
  predicate NoneFromEdge(rs: seq<Range>, S: uint64, j: nat) {
    forall k :: j <= k < |rs| && !Wraps(rs[k]) && rs[k].length > 0 ==> rs[k].start != S
  }

  lemma {:induction false} EdgeLasts(rs: seq<Range>, S: uint64, j: nat)
    requires WrapsOnlyAt(rs, S) && j < |rs| && Wraps(rs[j]) && forall k :: j < k < |rs| ==> !Wraps(rs[k])
    ensures KeySorted([])
    ensures var m := InsertedFrom([], rs);
            Interval(S, 0) in m <==> NoneFromEdge(rs, S, j) && !SomeFromZero(m, S)
  {
    hide InsertedFrom, Inserted, Regular, RequestOk, Wraps, SomeFromZero, NoneFromEdge;
    var n := |rs| - 1;
    var before := InsertedFrom([], rs[..n]);
    RunRegular(rs[..n], S);
    assert InsertedFrom([], rs) == Inserted(before, rs[n].start, rs[n].length) by { RunStep(rs); }
    if j == n {
      JustWrapped(before, rs[n], S);
      assert NoneFromEdge(rs, S, j) by { LastOnly(rs, S); }
    } else {
      EdgeLasts(rs[..n], S, j);
      NoneFromEdgeSnoc(rs, S, j);
      PlainKeepsEdge(before, rs[n], S);
      if SomeFromZero(before, S) {
        ZeroStays(before, rs[n], S);
      }
    }
  }

  lemma RunStep(rs: seq<Range>)
    requires rs != []
    ensures KeySorted([])
    ensures var n := |rs| - 1;
            InsertedFrom([], rs) == Inserted(InsertedFrom([], rs[..n]), rs[n].start, rs[n].length)
  {
    hide Inserted;
  }

  lemma JustWrapped(m: seq<Interval>, r: Range, S: uint64)
    requires Regular(m, S) && RequestOk(r, S) && Wraps(r)
    ensures var m' := Inserted(m, r.start, r.length); Interval(S, 0) in m' <==> !SomeFromZero(m', S)
  {
    hide EntryOk, LowApart, ZeroFirst, KeySorted, Inserted, SomeFromZero;
    var m' := Inserted(m, r.start, r.length);
    InsertedRegular(m, r, S);
    if SomeFromZero(m', S) {
      ZeroExcludesEdge(m', S);
    } else {
      if SomeFromZero(m, S) {
        ZeroStays(m, r, S);
      }
      WrapStored(m, r, S, Interval(S, 0));
    }
  }

  lemma ZeroStays(m: seq<Interval>, r: Range, S: uint64)
    requires Regular(m, S) && RequestOk(r, S) && SomeFromZero(m, S)
    ensures SomeFromZero(Inserted(m, r.start, r.length), S)
  {
    hide EntryOk, LowApart, ZeroFirst, KeySorted, Inserted;
    FromZeroReaches(m, S);
    InsertedKeeps(m, r, S, 0, S - 1);
    FromZeroReaches(Inserted(m, r.start, r.length), S);
  }

  lemma LastOnly(rs: seq<Range>, S: uint64)
    requires rs != [] && Wraps(rs[|rs| - 1])
    ensures NoneFromEdge(rs, S, |rs| - 1)
  {
  }

  lemma NoneFromEdgeSnoc(rs: seq<Range>, S: uint64, j: nat)
    requires j < |rs| - 1 && !Wraps(rs[|rs| - 1])
    ensures var n := |rs| - 1;
            NoneFromEdge(rs, S, j) <==> NoneFromEdge(rs[..n], S, j) && (rs[n].length == 0 || rs[n].start != S)
  {
    hide Wraps;
    var n := |rs| - 1;
    assert forall k :: 0 <= k < n ==> rs[..n][k] == rs[k];
  }

  /** What ordinary entries hold at the end: what they held outside of S when the last wrapping request came, and what came later. */
  lemma {:induction false} HeldAfter(rs: seq<Range>, S: uint64, j: nat, a: nat)
    requires WrapsOnlyAt(rs, S) && j < |rs| && Wraps(rs[j]) && forall k :: j < k < |rs| ==> !Wraps(rs[k])
    ensures KeySorted([])
    ensures Held(InsertedFrom([], rs), a)
            <==> HeldElsewhere(InsertedFrom([], rs[..j]), S, a) || Requested(rs[j + 1..], a)
  {
    hide InsertedFrom, Inserted, Regular, RequestOk, Wraps, HeldElsewhere, Held, Requested, InRange;
    var n := |rs| - 1;
    RunRegular(rs[..n], S);
    RunStep(rs);
    if j == n {
      WrapHolds(InsertedFrom([], rs[..n]), rs[n], S, a);
      NothingRequested(a);
      assert rs[j + 1..] == [];
    } else {
      HeldAfter(rs[..n], S, j, a);
      PlainHolds(InsertedFrom([], rs[..n]), rs[n], S, a);
      RequestedSnoc(rs[..n][j + 1..], rs[n], a);
      assert rs[j + 1..] == rs[..n][j + 1..] + [rs[n]] && rs[..n][..j] == rs[..j];
    }
  }

  lemma NothingRequested(a: nat)
    ensures !Requested([], a)
  {
  }

  lemma SpannedAbove(m: seq<Interval>, S: uint64, a: nat)
    requires Regular(m, S) && S <= a < UINT64_MOD
    ensures Spanned(m, a) <==> Interval(S, 0) in m || Held(m, a)
  {
    hide LowApart, ZeroFirst, KeySorted;
    assert InSpan(Interval(S, 0), a);
    forall p | p in m ensures InSpan(p, a) <==> p == Interval(S, 0) || Holds(p, a) {
      assert EntryOk(p, S);
    }
  }

  /**
   When the address a from S on, which the j-th request asks for as the last one that wraps, is still there at
   the end: no later request starts at S, while some address below S is not requested; or a later request asks
   for it; or before the j-th request an entry that starts elsewhere than at S held it.
   */
  lemma AboveIff(rs: seq<Range>, S: uint64, j: nat, a: nat)
    requires WrapsOnlyAt(rs, S) && j < |rs| && Wraps(rs[j]) && forall k :: j < k < |rs| ==> !Wraps(rs[k])
    requires S <= a < UINT64_MOD
    ensures KeySorted([])
    ensures Spanned(InsertedFrom([], rs), a)
            <==> (NoneFromEdge(rs, S, j) && !BelowFull(rs, S))
                 || Requested(rs[j + 1..], a)
                 || HeldElsewhere(InsertedFrom([], rs[..j]), S, a)
  {
    hide InsertedFrom, Regular, RequestOk, Wraps, HeldElsewhere, Held, Spanned, Requested, NoneFromEdge, BelowFull,
         SomeFromZero;
    RunRegular(rs, S);
    SpannedAbove(InsertedFrom([], rs), S, a);
    EdgeLasts(rs, S, j);
    FromZeroIff(rs, S);
    HeldAfter(rs, S, j, a);
  }

  /** A range from S is lost to a wrapping request from there, and that one to a shorter range from there. */
  lemma ShorterReplacesLonger(S: uint64, length: uint64, shorter: uint64)
    requires 0 < S && 0 < shorter < length && S + length < UINT64_MOD
    ensures KeySorted([])
    ensures var rs := [Range(S, length), Range(S, UINT64_MOD - S), Range(S, shorter)];
            Requested(rs, S + shorter) && !Spanned(InsertedFrom([], rs), S + shorter)
  {
    hide InsertedFrom, Spanned, BelowFull;
    var rs := [Range(S, length), Range(S, UINT64_MOD - S), Range(S, shorter)];
    var a := S + shorter;
    assert InRange(a, rs[0]);
    assert rs[..1] == [rs[0]] && rs[2..] == [rs[2]];
    assert !Requested(rs[2..], a);
    OneFromEdge(rs[0], S);
    assert !NoneFromEdge(rs, S, 1) by { assert !Wraps(rs[2]); }
    AboveIff(rs, S, 1, a);
  }

  // ---------------------------------------------------------------- what a map could hold

  /** The requests that start below W, cut off there. */
  function CutAt(rs: seq<Range>, W: uint64): (cut: seq<Range>)
    ensures forall i :: 0 <= i < |cut| ==> cut[i].start + cut[i].length <= W
  {
    if rs == [] then []
    else
      var r := rs[|rs| - 1];
      CutAt(rs[..|rs| - 1], W) + if r.start < W then [Range(r.start, Min64(r.length, W - r.start))] else []
  }

  lemma {:induction false} CutRequested(rs: seq<Range>, W: uint64, a: nat)
    ensures Requested(CutAt(rs, W), a) <==> Requested(rs, a) && a < W
  {
    if rs != [] {
      var n := |rs| - 1;
      CutRequested(rs[..n], W, a);
      RequestedSnoc(rs[..n], rs[n], a);
      assert rs == rs[..n] + [rs[n]];
      if rs[n].start < W {
        RequestedSnoc(CutAt(rs[..n], W), Range(rs[n].start, Min64(rs[n].length, W - rs[n].start)), a);
      } else {
        assert CutAt(rs, W) == CutAt(rs[..n], W);
      }
    }
  }

  lemma {:induction false} LowestWrap(rs: seq<Range>) returns (j: nat)
    requires SomeWraps(rs)
    ensures j < |rs| && Wraps(rs[j]) && forall k :: 0 <= k < |rs| && Wraps(rs[k]) ==> rs[j].start <= rs[k].start
  {
    var n := |rs| - 1;
    if SomeWraps(rs[..n]) {
      j := LowestWrap(rs[..n]);
      assert forall k :: 0 <= k < n ==> rs[..n][k] == rs[k];
      if Wraps(rs[n]) && rs[n].start < rs[j].start {
        j := n;
      }
    } else {
      var i :| 0 <= i < |rs| && Wraps(rs[i]);
      assert forall k :: 0 <= k < n ==> !Wraps(rs[..n][k]);
      j := n;
    }
  }

  lemma EndsAt(m: seq<Interval>, rs: seq<Range>, W: uint64)
    requires RunsOf(m, rs) && forall i :: 0 <= i < |rs| ==> rs[i].start + rs[i].length <= W
    ensures forall i :: 0 <= i < |m| ==> m[i].end <= W
  {
    forall i | 0 <= i < |m| ensures m[i].end <= W {
      assert Holds(m[i], m[i].end - 1);
      assert Covered(m, m[i].end - 1);
    }
  }

  /** The map that would be right: the runs below the lowest wrapping request, and one entry from there to 2^64. */
  lemma WrappedMap(rs: seq<Range>) returns (m: seq<Interval>)
    requires SomeWraps(rs) && forall i :: 0 <= i < |rs| ==> rs[i].start + rs[i].length <= UINT64_MOD
    ensures KeySorted(m) && AllBounded(m) && EachOnce(m, rs)
  {
    var j := LowestWrap(rs);
    var W, cut := rs[j].start, CutAt(rs, rs[j].start);
    InsertAllDenotes(cut);
    var low := InsertAll(cut);
    EndsAt(low, cut, W);
    WellFormedIsSorted(low);
    m := low + [Interval(W, 0)];
    forall a: nat ensures (Spanned(m, a) <==> Requested(rs, a)) && Single(m, a) {
      CutRequested(rs, W, a);
      WrappedMapSpans(low, W, a);
      AboveLowest(rs, j, a);
    }
  }

  lemma AboveLowest(rs: seq<Range>, j: nat, a: nat)
    requires j < |rs| && Wraps(rs[j])
    requires forall i :: 0 <= i < |rs| ==> rs[i].start + rs[i].length <= UINT64_MOD
    ensures a >= rs[j].start ==> (Requested(rs, a) <==> a < UINT64_MOD)
  {
    if rs[j].start <= a < UINT64_MOD {
      assert InRange(a, rs[j]);
    }
  }

  lemma WrappedMapSpans(low: seq<Interval>, W: uint64, a: nat)
    requires 0 < W && WellFormed(low) && forall i :: 0 <= i < |low| ==> low[i].end <= W
    ensures var m := low + [Interval(W, 0)];
            && (Spanned(m, a) <==> Covered(low, a) || W <= a < UINT64_MOD) && Single(m, a)
  {
    var m, z := low + [Interval(W, 0)], Interval(W, 0);
    SpannedIsCovered(low, a);
    assert z in m && (InSpan(z, a) <==> W <= a < UINT64_MOD);
    forall p | p in low ensures p in m && (InSpan(p, a) ==> a < W) {
    }
    forall p, q | p in m && q in m && InSpan(p, a) && InSpan(q, a) ensures p == q {
      if p != z && q != z {
        var i :| 0 <= i < |low| && low[i] == p;
        var k :| 0 <= k < |low| && low[k] == q;
      }
    }
  }

  /** Some map would visit each requested address once, whenever no request runs past 2^64. */
  lemma DenotableIff(rs: seq<Range>)
    ensures (exists m :: KeySorted(m) && AllBounded(m) && EachOnce(m, rs))
            <==> forall i :: 0 <= i < |rs| ==> rs[i].start + rs[i].length <= UINT64_MOD
  {
    hide InsertedFrom, EachOnce;
    if forall i :: 0 <= i < |rs| ==> rs[i].start + rs[i].length <= UINT64_MOD {
      if SomeWraps(rs) {
        var m := WrappedMap(rs);
      } else {
        NoWrapsDenotes(rs);
        assert AllBounded(InsertedFrom([], rs));
      }
    }
    if i, m :| 0 <= i < |rs| && rs[i].start + rs[i].length > UINT64_MOD && KeySorted(m) && AllBounded(m) && EachOnce(m, rs) {
      NothingPastEnd(m, rs, i);
    }
  }

  lemma NothingPastEnd(m: seq<Interval>, rs: seq<Range>, i: nat)
    requires AllBounded(m) && i < |rs| && rs[i].start + rs[i].length > UINT64_MOD
    ensures !EachOnce(m, rs)
  {
    var a := rs[i].start + rs[i].length - 1;
    assert InRange(a, rs[i]);
    assert Requested(rs, a) && !Spanned(m, a);
  }
}
