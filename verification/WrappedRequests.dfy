/**
 Runs of insertions in which some requests end exactly at 2^64. Their stored end is 0, so the loop neither
 merges them with what they overlap nor protects them from later requests. All of them start at the same
 address S here, as those of the thread loop do.
 */
module WrappedRequests {
  import opened Bytes
  import opened IntervalSet

  /** No request runs past 2^64, and those that end there start at S. */
  predicate WrapsOnlyAt(rs: seq<Range>, S: uint64) {
    0 < S && forall i :: 0 <= i < |rs| ==> RequestOk(rs[i], S)
  }

  predicate RequestOk(r: Range, S: uint64) {
    r.start + r.length <= UINT64_MOD && (Wraps(r) ==> r.start == S)
  }

  predicate SomeWraps(rs: seq<Range>) {
    exists i :: 0 <= i < |rs| && Wraps(rs[i])
  }

  /** The address was requested by a range that does not wrap. */
  predicate PlainlyRequested(rs: seq<Range>, a: nat) {
    exists i :: 0 <= i < |rs| && !Wraps(rs[i]) && InRange(a, rs[i])
  }

  // ---------------------------------------------------------------- the entries after one step

  lemma UpdateElems(m: seq<Interval>, i: nat, v: Interval, p: Interval)
    requires KeySorted(m) && i < |m| && v.start == m[i].start
    ensures p in m[i := v] <==> p == v || (p in m && p.start != v.start)
  {
    assert m[i := v][i] == v;
    if p in m && p.start != v.start {
      var j :| 0 <= j < |m| && m[j] == p;
      assert m[i := v][j] == p;
    }
  }

  lemma AddElems(m: seq<Interval>, i: nat, v: Interval, p: Interval)
    requires i <= |m|
    ensures p in m[..i] + [v] + m[i..] <==> p == v || p in m
  {
    assert m == m[..i] + m[i..];
  }

  lemma AssignElems(m: seq<Interval>, k: uint64, end: uint64, p: Interval)
    requires KeySorted(m)
    ensures p in Assign(m, k, end) <==> p == Interval(k, end) || (p in m && p.start != k)
  {
    var i := UpperBound(m, k);
    if i > 0 && m[i - 1].start == k {
      UpdateElems(m, i - 1, Interval(k, end), p);
    } else {
      AddElems(m, i, Interval(k, end), p);
      assert forall j :: 0 <= j < i ==> m[j].start <= m[i - 1].start;
    }
  }

  lemma EraseElems(m: seq<Interval>, i: nat, p: Interval)
    requires KeySorted(m) && i < |m|
    ensures p in Erase(m, i) <==> p in m && p != m[i]
  {
    var r := Erase(m, i);
    if p in m && p != m[i] {
      var j :| 0 <= j < |m| && m[j] == p;
      assert p == r[if j < i then j else j - 1];
    }
    if p in r {
      var j :| 0 <= j < |r| && r[j] == p;
      assert p == m[if j < i then j else j + 1];
    }
  }

  // ---------------------------------------------------------------- what every run keeps

  /** An entry is an ordinary one, or the one that reaches from S to 2^64. */
  predicate EntryOk(p: Interval, S: uint64) {
    p.start < p.end || p == Interval(S, 0)
  }

  /** Entries that start below S keep a distance to the next one. */
  predicate LowApart(p: Interval, q: Interval, S: uint64) {
    p.start < q.start < S ==> p.end < q.start
  }

  predicate FromZero(p: Interval, S: uint64) {
    p.start == 0 && p.end >= S
  }

  /** An entry that reaches from 0 to S keeps a distance to all others. */
  predicate ZeroFirst(p: Interval, q: Interval, S: uint64) {
    FromZero(p, S) && p != q ==> p.end < q.start
  }

  /** What holds of the map after every run. */
  predicate Regular(m: seq<Interval>, S: uint64) {
    && 0 < S && KeySorted(m)
    && (forall p :: p in m ==> EntryOk(p, S))
    && (forall p, q :: p in m && q in m ==> LowApart(p, q, S) && ZeroFirst(p, q, S))
  }

  /** What the loop has passed by lies below the grown range [lo, hi). */
  predicate Passed(m: seq<Interval>, it: nat, lo: uint64, hi: uint64, S: uint64)
    requires it <= |m|
  {
    && (lo < hi || (lo == S && hi == 0))
    && (lo == 0 ==> it == 0)
    && forall k :: 0 <= k < it ==> (m[k].start < S && lo < S) || FromZero(m[k], S) ==> m[k].end < lo
  }

  lemma PassedStart(m: seq<Interval>, s: uint64, e: uint64, S: uint64)
    requires Regular(m, S) && (s < e || (s == S && e == 0))
    ensures Passed(m, StartIndex(m, s), s, e, S)
  {
    var it := StartIndex(m, s);
    assert it > 0 ==> m[0].start < m[it].start <= s;
    forall k | 0 <= k < it && ((m[k].start < S && s < S) || FromZero(m[k], S))
      ensures m[k].end < s
    {
      assert m[k] in m && m[it] in m;
      assert m[it].start <= s;
      assert LowApart(m[k], m[it], S) && ZeroFirst(m[k], m[it], S);
    }
  }

  lemma RegularErase(m: seq<Interval>, i: nat, S: uint64)
    requires Regular(m, S) && i < |m|
    ensures Regular(Erase(m, i), S)
  {
    hide EntryOk, LowApart, ZeroFirst, KeySorted, Erase;
    forall p | p in Erase(m, i) ensures p in m {
      EraseElems(m, i, p);
    }
  }

  lemma PassedSwallow(m: seq<Interval>, it: nat, lo: uint64, hi: uint64, S: uint64)
    requires Regular(m, S) && it < |m| && Passed(m, it, lo, hi, S)
    requires m[it].start <= hi && m[it].end >= lo
    ensures Passed(Erase(m, it), it, Min64(lo, m[it].start), Max64(hi, m[it].end), S)
  {
    assert m[it] in m && EntryOk(m[it], S);
    forall k | 0 <= k < it
      ensures m[k].start < S && m[it].start < S ==> m[k].end < m[it].start
      ensures FromZero(m[k], S) ==> m[k].end < m[it].start
    {
      assert m[k] in m;
      assert LowApart(m[k], m[it], S) && ZeroFirst(m[k], m[it], S);
    }
    assert it > 0 ==> m[0].start < m[it].start;
  }

  lemma PassedSkip(m: seq<Interval>, it: nat, lo: uint64, hi: uint64, S: uint64)
    requires Regular(m, S) && it < |m| && Passed(m, it, lo, hi, S)
    requires m[it].end < lo
    ensures Passed(m, it + 1, lo, hi, S)
  {
  }

  lemma RegularAssign(m: seq<Interval>, it: nat, lo: uint64, hi: uint64, S: uint64)
    requires Regular(m, S) && it <= |m| && Passed(m, it, lo, hi, S)
    requires it < |m| ==> m[it].start > hi
    ensures Regular(Assign(m, lo, hi), S)
  {
    var r, grown := Assign(m, lo, hi), Interval(lo, hi);
    forall p | p in r
      ensures EntryOk(p, S) && (p == grown || p in m)
      ensures p != grown ==> LowApart(p, grown, S) && LowApart(grown, p, S) && ZeroFirst(p, grown, S) && ZeroFirst(grown, p, S)
    {
      AssignElems(m, lo, hi, p);
      if p != grown {
        var k :| 0 <= k < |m| && m[k] == p;
        assert k >= it ==> p.start > hi;
      }
    }
  }

  lemma {:induction false} SweepRegular(m: seq<Interval>, it: nat, lo: uint64, hi: uint64, S: uint64)
    requires Regular(m, S) && it <= |m| && Passed(m, it, lo, hi, S)
    ensures Regular(Sweep(m, it, lo, hi), S)
    decreases |m| - it
  {
    hide EntryOk, LowApart, ZeroFirst, Erase, Assign, Passed;
    if it < |m| && m[it].start <= hi {
      if m[it].end >= lo {
        RegularErase(m, it, S);
        PassedSwallow(m, it, lo, hi, S);
        SweepRegular(Erase(m, it), it, Min64(lo, m[it].start), Max64(hi, m[it].end), S);
      } else {
        PassedSkip(m, it, lo, hi, S);
        SweepRegular(m, it + 1, lo, hi, S);
      }
    } else {
      RegularAssign(m, it, lo, hi, S);
    }
  }

  lemma StartPassed(m: seq<Interval>, r: Range, S: uint64)
    requires Regular(m, S) && RequestOk(r, S) && r.length > 0
    ensures Passed(m, StartIndex(m, r.start), r.start, Add64(r.start, r.length), S)
  {
    PassedStart(m, r.start, Add64(r.start, r.length), S);
  }

  lemma InsertedRegular(m: seq<Interval>, r: Range, S: uint64)
    requires Regular(m, S) && RequestOk(r, S)
    ensures Regular(Inserted(m, r.start, r.length), S)
  {
    hide EntryOk, LowApart, ZeroFirst, Sweep, StartIndex, Passed;
    if r.length > 0 {
      StartPassed(m, r, S);
      SweepRegular(m, StartIndex(m, r.start), r.start, Add64(r.start, r.length), S);
    }
  }

  lemma {:induction false} RunRegular(rs: seq<Range>, S: uint64)
    requires WrapsOnlyAt(rs, S)
    ensures KeySorted([]) && Regular(InsertedFrom([], rs), S)
  {
    hide RequestOk, Inserted, EntryOk, LowApart, ZeroFirst;
    if rs != [] {
      var n := |rs| - 1;
      RunRegular(rs[..n], S);
      InsertedRegular(InsertedFrom([], rs[..n]), rs[n], S);
    }
  }

  // ---------------------------------------------------------------- what a step adds, and what it keeps

  /** An ordinary entry reaches from x to y. */
  predicate SomeReaches(m: seq<Interval>, x: nat, y: nat) {
    exists p :: p in m && Spans(p, x, y)
  }

  /** Storing [lo, hi) can replace only the entry that reaches to 2^64. */
  predicate OnlyEdgeAt(m: seq<Interval>, it: nat, lo: uint64, hi: uint64) {
    lo < hi ==> forall k :: 0 <= k < |m| && k != it && m[k].start == lo ==> m[k].end == 0
  }

  lemma AssignKeeps(m: seq<Interval>, it: nat, lo: uint64, hi: uint64, x: nat, y: nat)
    requires KeySorted(m) && it <= |m| && (it < |m| ==> m[it].start > hi) && OnlyEdgeAt(m, it, lo, hi)
    requires x <= y && (lo < hi || x < lo)
    requires SomeReaches(m, x, y) || Spans(Interval(lo, hi), x, y)
    ensures SomeReaches(Assign(m, lo, hi), x, y)
  {
    hide Assign;
    AssignElems(m, lo, hi, Interval(lo, hi));
    if !Spans(Interval(lo, hi), x, y) {
      var p :| p in m && Spans(p, x, y);
      var k :| 0 <= k < |m| && m[k] == p;
      AssignElems(m, lo, hi, p);
    }
  }

  lemma SwallowKeeps(m: seq<Interval>, it: nat, lo: uint64, hi: uint64, x: nat, y: nat)
    requires KeySorted(m) && it < |m| && m[it].start <= hi && m[it].end >= lo
    requires SomeReaches(m, x, y) || Spans(Interval(lo, hi), x, y)
    ensures SomeReaches(Erase(m, it), x, y)
            || Spans(Interval(Min64(lo, m[it].start), Max64(hi, m[it].end)), x, y)
  {
    if !Spans(Interval(lo, hi), x, y) {
      var p :| p in m && Spans(p, x, y);
      EraseElems(m, it, p);
    }
  }

  lemma EdgeSwallow(m: seq<Interval>, it: nat, lo: uint64, hi: uint64, S: uint64)
    requires Regular(m, S) && it < |m| && Passed(m, it, lo, hi, S) && OnlyEdgeAt(m, it, lo, hi)
    requires m[it].start <= hi && m[it].end >= lo
    ensures OnlyEdgeAt(Erase(m, it), it, Min64(lo, m[it].start), Max64(hi, m[it].end))
  {
    var m', lo' := Erase(m, it), Min64(lo, m[it].start);
    forall k | 0 <= k < |m'| && k != it && m'[k].start == lo'
      ensures lo < hi && m'[k].end == 0
    {
      assert m'[k] == m[if k < it then k else k + 1];
    }
  }

  lemma EdgeSkip(m: seq<Interval>, it: nat, lo: uint64, hi: uint64, S: uint64)
    requires Regular(m, S) && it < |m| && OnlyEdgeAt(m, it, lo, hi) && m[it].end < lo
    ensures OnlyEdgeAt(m, it + 1, lo, hi)
  {
    assert m[it] in m && EntryOk(m[it], S);
  }

  /** The loop keeps what an entry or the grown range reaches; a wrapping range may cut off what lies behind its start. */
  lemma {:induction false} SweepKeeps(m: seq<Interval>, it: nat, lo: uint64, hi: uint64, S: uint64, x: nat, y: nat)
    requires Regular(m, S) && it <= |m| && Passed(m, it, lo, hi, S) && OnlyEdgeAt(m, it, lo, hi)
    requires x <= y && (lo < hi || x < lo)
    requires SomeReaches(m, x, y) || Spans(Interval(lo, hi), x, y)
    ensures SomeReaches(Sweep(m, it, lo, hi), x, y)
    decreases |m| - it
  {
    hide EntryOk, LowApart, ZeroFirst, Erase, Assign, SomeReaches, OnlyEdgeAt;
    if it < |m| && m[it].start <= hi {
      if m[it].end >= lo {
        var m', lo', hi' := Erase(m, it), Min64(lo, m[it].start), Max64(hi, m[it].end);
        RegularErase(m, it, S);
        PassedSwallow(m, it, lo, hi, S);
        EdgeSwallow(m, it, lo, hi, S);
        SwallowKeeps(m, it, lo, hi, x, y);
        assert lo' < hi' by { assert m[it] in m && EntryOk(m[it], S); SwallowGrows(m[it], lo, hi, S); }
        SweepKeeps(m', it, lo', hi', S, x, y);
      } else {
        PassedSkip(m, it, lo, hi, S);
        EdgeSkip(m, it, lo, hi, S);
        SweepKeeps(m, it + 1, lo, hi, S, x, y);
      }
    } else {
      AssignKeeps(m, it, lo, hi, x, y);
    }
  }

  lemma SwallowGrows(p: Interval, lo: uint64, hi: uint64, S: uint64)
    requires 0 < S && EntryOk(p, S) && (lo < hi || (lo == S && hi == 0)) && p.start <= hi && p.end >= lo
    ensures Min64(lo, p.start) < Max64(hi, p.end)
  {
  }

  lemma EdgeStart(m: seq<Interval>, s: uint64, e: uint64)
    requires KeySorted(m)
    ensures OnlyEdgeAt(m, StartIndex(m, s), s, e)
  {
    var above := UpperBound(m, s);
    assert forall k :: 0 <= k && k + 1 < above ==> m[k].start < m[above - 1].start;
    assert forall k :: 0 <= k < |m| && m[k].start == s ==> k < above;
  }

  /** One call keeps every connected range that starts below a wrapping request, and adds the requested one. */
  lemma InsertedKeeps(m: seq<Interval>, r: Range, S: uint64, x: nat, y: nat)
    requires Regular(m, S) && RequestOk(r, S) && x <= y && (Wraps(r) ==> x < S)
    requires SomeReaches(m, x, y) || (!Wraps(r) && r.start <= x && y < r.start + r.length)
    ensures SomeReaches(Inserted(m, r.start, r.length), x, y)
  {
    if r.length > 0 {
      var it, hi := StartIndex(m, r.start), Add64(r.start, r.length);
      StartPassed(m, r, S);
      EdgeStart(m, r.start, hi);
      SweepKeeps(m, it, r.start, hi, S, x, y);
    }
  }

  lemma {:induction false} RunKeeps(rs: seq<Range>, S: uint64, i: nat, x: nat, y: nat)
    requires WrapsOnlyAt(rs, S) && i < |rs| && !Wraps(rs[i])
    requires rs[i].start <= x <= y < rs[i].start + rs[i].length
    requires x < S || !SomeWraps(rs)
    ensures KeySorted([]) && SomeReaches(InsertedFrom([], rs), x, y)
  {
    hide RequestOk, Inserted, Wraps, SomeReaches, Regular;
    var n := |rs| - 1;
    RunRegular(rs[..n], S);
    if i < n {
      assert SomeWraps(rs[..n]) ==> SomeWraps(rs);
      RunKeeps(rs[..n], S, i, x, y);
    }
    InsertedKeeps(InsertedFrom([], rs[..n]), rs[n], S, x, y);
  }

  // ---------------------------------------------------------------- nothing is added that was not requested

  /** Some ordinary entry holds the address. */
  predicate Held(m: seq<Interval>, a: nat) {
    exists p :: p in m && Holds(p, a)
  }

  lemma {:induction false} SweepHolds(m: seq<Interval>, it: nat, lo: uint64, hi: uint64, a: nat)
    requires KeySorted(m) && it <= |m|
    requires Held(Sweep(m, it, lo, hi), a)
    ensures Held(m, a) || Holds(Interval(lo, hi), a)
    decreases |m| - it
  {
    hide Assign, Erase, KeySorted;
    if it < |m| && m[it].start <= hi {
      if m[it].end >= lo {
        SweepHolds(Erase(m, it), it, Min64(lo, m[it].start), Max64(hi, m[it].end), a);
        if p :| p in Erase(m, it) && Holds(p, a) {
          EraseElems(m, it, p);
        } else {
          assert m[it] in m && (Holds(m[it], a) || Holds(Interval(lo, hi), a));
        }
      } else {
        SweepHolds(m, it + 1, lo, hi, a);
      }
    } else {
      var p :| p in Assign(m, lo, hi) && Holds(p, a);
      AssignElems(m, lo, hi, p);
    }
  }

  lemma {:induction false} HeldIsRequested(rs: seq<Range>, S: uint64, a: nat)
    requires WrapsOnlyAt(rs, S) && KeySorted([]) && Held(InsertedFrom([], rs), a)
    ensures PlainlyRequested(rs, a)
  {
    hide KeySorted, StartIndex, Sweep;
    if rs != [] {
      var n := |rs| - 1;
      var before, r := InsertedFrom([], rs[..n]), rs[n];
      if r.length > 0 {
        SweepHolds(before, StartIndex(before, r.start), r.start, Add64(r.start, r.length), a);
      }
      if Held(before, a) {
        HeldIsRequested(rs[..n], S, a);
        var i :| 0 <= i < n && !Wraps(rs[..n][i]) && InRange(a, rs[..n][i]);
        assert rs[i] == rs[..n][i];
      } else {
        assert !Wraps(r) && InRange(a, r);
      }
    }
  }

  /** The entry that reaches to 2^64 comes from a wrapping request. */
  lemma {:induction false} SweepAddsOrdinary(m: seq<Interval>, it: nat, lo: uint64, hi: uint64, S: uint64)
    requires 0 < S && KeySorted(m) && it <= |m| && lo < hi && (forall p :: p in m ==> EntryOk(p, S))
    requires Interval(S, 0) in Sweep(m, it, lo, hi)
    ensures Interval(S, 0) in m
    decreases |m| - it
  {
    hide Assign, Erase, KeySorted;
    if it < |m| && m[it].start <= hi {
      if m[it].end >= lo {
        forall p | p in Erase(m, it) ensures p in m {
          EraseElems(m, it, p);
        }
        SweepAddsOrdinary(Erase(m, it), it, Min64(lo, m[it].start), Max64(hi, m[it].end), S);
      } else {
        SweepAddsOrdinary(m, it + 1, lo, hi, S);
      }
    } else {
      AssignElems(m, lo, hi, Interval(S, 0));
    }
  }

  // ---------------------------------------------------------------- below S nothing is lost or doubled

  lemma RequestedBelow(rs: seq<Range>, S: uint64, a: nat)
    requires WrapsOnlyAt(rs, S) && a < S
    ensures Requested(rs, a) <==> PlainlyRequested(rs, a)
  {
    if Requested(rs, a) {
      var i :| 0 <= i < |rs| && InRange(a, rs[i]);
      assert RequestOk(rs[i], S);
    }
  }

  lemma SpannedBelow(m: seq<Interval>, S: uint64, a: nat)
    requires Regular(m, S) && a < S
    ensures Spanned(m, a) <==> Held(m, a)
    ensures Single(m, a)
  {
    hide LowApart, ZeroFirst, KeySorted;
    forall p | p in m ensures InSpan(p, a) <==> Holds(p, a) {
      assert EntryOk(p, S);
    }
    forall p, q | p in m && q in m && InSpan(p, a) && InSpan(q, a) ensures p == q {
      assert Holds(p, a) && Holds(q, a);
      OneLowEntry(m, S, p, q, a);
    }
  }

  lemma OneLowEntry(m: seq<Interval>, S: uint64, p: Interval, q: Interval, a: nat)
    requires Regular(m, S) && p in m && q in m && a < S && Holds(p, a) && Holds(q, a)
    ensures p == q
  {
    hide ZeroFirst, EntryOk;
    assert LowApart(p, q, S) && LowApart(q, p, S);
    var i :| 0 <= i < |m| && m[i] == p;
    var j :| 0 <= j < |m| && m[j] == q;
  }

  /** In every run, an address below S is spanned by one entry if it was requested, and by none otherwise. */
  lemma BelowIsExact(rs: seq<Range>, S: uint64, a: nat)
    requires WrapsOnlyAt(rs, S) && a < S
    ensures KeySorted([]) && (Spanned(InsertedFrom([], rs), a) <==> Requested(rs, a)) && Single(InsertedFrom([], rs), a)
  {
    hide RequestOk, Regular, Inserted, Requested;
    RunRegular(rs, S);
    var m := InsertedFrom([], rs);
    SpannedBelow(m, S, a);
    RequestedBelow(rs, S, a);
    if PlainlyRequested(rs, a) {
      var i :| 0 <= i < |rs| && !Wraps(rs[i]) && InRange(a, rs[i]);
      RunKeeps(rs, S, i, a, a);
      var p :| p in m && Spans(p, a, a);
      assert Holds(p, a);
    }
    if Held(m, a) {
      HeldIsRequested(rs, S, a);
    }
  }
}
