/** Zero-terminated strings and fixed-size name fields. */
module CStrings {
  import opened Bytes

  /** A 16-byte character array. */
  type name16 = s: seq<byte> | |s| == 16 witness Zeros(16)

  function NulIndex(s: seq<byte>): (i: nat)
    ensures i <= |s|
    ensures forall j :: 0 <= j < i ==> s[j] != 0
    ensures i < |s| ==> s[i] == 0
  {
    NulIndexFrom(s, 0)
  }

  function NulIndexFrom(s: seq<byte>, from: nat): (i: nat)
    requires from <= |s|
    ensures from <= i <= |s|
    ensures forall j :: from <= j < i ==> s[j] != 0
    ensures i < |s| ==> s[i] == 0
    decreases |s| - from
  {
    if from == |s| || s[from] == 0 then from else NulIndexFrom(s, from + 1)
  }

  /** What a C string function sees of a buffer. */
  function CString(s: seq<byte>): (r: seq<byte>)
    ensures |r| <= |s|
  {
    s[..NulIndex(s)]
  }

  predicate NulFree(s: seq<byte>) {
    forall i :: 0 <= i < |s| ==> s[i] != 0
  }

  predicate IsName(s: seq<byte>) {
    |s| <= 16 && NulFree(s)
  }

  function PadName(name: seq<byte>): name16
    requires IsName(name)
  {
    name + Zeros(16 - |name|)
  }

  predicate Padded(owner: name16) {
    IsName(CString(owner)) && owner == PadName(CString(owner))
  }

  lemma CStringCut(s: seq<byte>, i: nat)
    requires i <= |s| && NulFree(s[..i]) && (i < |s| ==> s[i] == 0)
    ensures CString(s) == s[..i]
  {
    var n := NulIndex(s);
    assert forall j :: 0 <= j < i ==> s[..i][j] == s[j];
    assert n == i;
  }

  lemma PadNameRoundTrip(name: seq<byte>)
    requires IsName(name)
    ensures CString(PadName(name)) == name && Padded(PadName(name))
  {
    assert PadName(name)[..|name|] == name;
    CStringCut(PadName(name), |name|);
  }
}
