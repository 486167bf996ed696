/** Lookup in tables that are sorted by address, as ordered maps keep them. */
module Search {
  import opened Bytes

  predicate Ascending(keys: seq<uint64>) {
    forall i, j :: 0 <= i < j < |keys| ==> keys[i] < keys[j]
  }

  /** Index of the first key that is not less than a. */
  function LowerBound(keys: seq<uint64>, a: uint64): (i: nat)
    requires Ascending(keys)
    ensures i <= |keys|
    ensures forall j :: 0 <= j < i ==> keys[j] < a
    ensures forall j :: i <= j < |keys| ==> keys[j] >= a
  {
    LowerBoundBelow(keys, a, |keys|)
  }

  function LowerBoundBelow(keys: seq<uint64>, a: uint64, n: nat): (i: nat)
    requires Ascending(keys) && n <= |keys|
    requires forall j :: n <= j < |keys| ==> keys[j] >= a
    ensures i <= |keys|
    ensures forall j :: 0 <= j < i ==> keys[j] < a
    ensures forall j :: i <= j < |keys| ==> keys[j] >= a
  {
    if n == 0 || keys[n - 1] < a then n else LowerBoundBelow(keys, a, n - 1)
  }

  /** The entry the address lookups of the program inspect. */
  function Candidate(keys: seq<uint64>, a: uint64): (i: nat)
    requires Ascending(keys) && keys != []
    ensures i < |keys|
  {
    var it := LowerBound(keys, a);
    if it == |keys| then |keys| - 1
    else if it != 0 && a != keys[it] then it - 1
    else it
  }

  /** Index k holds the greatest key that is not above a. */
  predicate IsPredecessor(keys: seq<uint64>, a: uint64, k: nat) {
    k < |keys| && keys[k] <= a && forall j :: k < j < |keys| ==> keys[j] > a
  }

  /** The inspected entry is the predecessor of a whenever there is one, and the first entry otherwise. */
  lemma CandidateIsPredecessor(keys: seq<uint64>, a: uint64)
    requires Ascending(keys) && keys != []
    ensures if keys[0] <= a then IsPredecessor(keys, a, Candidate(keys, a)) else Candidate(keys, a) == 0
  {
  }

  lemma PredecessorIsUnique(keys: seq<uint64>, a: uint64, k: nat, l: nat)
    requires IsPredecessor(keys, a, k) && IsPredecessor(keys, a, l)
    ensures k == l
  {
  }
}
