/** An ideal random-access byte stream: a write either happens in full or not at all. */
module Stream {
  import opened Bytes

  datatype Write = Write(offset: nat, bytes: seq<byte>)

  /** Stream contents after writing at a position; a hole before the position reads as zeros. */
  function Overwrite(data: seq<byte>, pos: nat, bytes: seq<byte>): seq<byte> {
    seq(SizeAfter(data, pos, bytes), k requires 0 <= k => ByteAfter(data, pos, bytes, k))
  }

  function SizeAfter(data: seq<byte>, pos: nat, bytes: seq<byte>): nat {
    if bytes == [] || pos + |bytes| < |data| then |data| else pos + |bytes|
  }

  function ByteAfter(data: seq<byte>, pos: nat, bytes: seq<byte>, k: nat): byte {
    if pos <= k < pos + |bytes| then bytes[k - pos] else if k < |data| then data[k] else 0
  }

  /** Two writes back to back are one write. */
  lemma OverwriteJoin(data: seq<byte>, pos: nat, a: seq<byte>, b: seq<byte>)
    ensures Overwrite(Overwrite(data, pos, a), pos + |a|, b) == Overwrite(data, pos, a + b)
  {
    var twice, once := Overwrite(Overwrite(data, pos, a), pos + |a|, b), Overwrite(data, pos, a + b);
    assert |twice| == |once|;
    assert forall k :: 0 <= k < |once| ==> twice[k] == once[k];
  }

  lemma OverwriteWrites(data: seq<byte>, pos: nat, bytes: seq<byte>)
    requires bytes != []
    ensures InFile(Overwrite(data, pos, bytes), pos, |bytes|)
    ensures Slice(Overwrite(data, pos, bytes), pos, |bytes|) == bytes
  {
  }

  /** A write leaves every slice alone that it does not overlap. */
  lemma OverwriteFrame(data: seq<byte>, pos: nat, bytes: seq<byte>, at: nat, width: nat)
    requires InFile(data, at, width)
    requires at + width <= pos || pos + |bytes| <= at
    ensures InFile(Overwrite(data, pos, bytes), at, width)
    ensures Slice(Overwrite(data, pos, bytes), at, width) == Slice(data, at, width)
  {
  }

  /** Stream contents after a list of writes. */
  function Replay(data: seq<byte>, ws: seq<Write>): seq<byte> {
    if ws == [] then data
    else
      var last := ws[|ws| - 1];
      Overwrite(Replay(data, ws[..|ws| - 1]), last.offset, last.bytes)
  }

  lemma ReplaySnoc(data: seq<byte>, ws: seq<Write>, w: Write)
    ensures Replay(data, ws + [w]) == Overwrite(Replay(data, ws), w.offset, w.bytes)
  {
    assert (ws + [w])[..|ws|] == ws;
  }

  lemma ReplayStep(data: seq<byte>, ws: seq<Write>, i: nat)
    requires i < |ws|
    ensures Replay(data, ws[..i + 1]) == Overwrite(Replay(data, ws[..i]), ws[i].offset, ws[i].bytes)
  {
    assert ws[..i + 1][..i] == ws[..i];
  }

  lemma ReplayNothing(data: seq<byte>, ws: seq<Write>)
    ensures Replay(data, ws[..0]) == data
  {
  }

  lemma ReplayAll(data: seq<byte>, ws: seq<Write>)
    ensures Replay(data, ws[..|ws|]) == Replay(data, ws)
  {
    assert ws[..|ws|] == ws;
  }

  lemma {:induction false} ReplayConcat(data: seq<byte>, a: seq<Write>, b: seq<Write>)
    ensures Replay(Replay(data, a), b) == Replay(data, a + b)
  {
    if b == [] {
      assert a + b == a;
    } else {
      var n := |b| - 1;
      ReplayConcat(data, a, b[..n]);
      assert a + b == (a + b[..n]) + [b[n]];
      ReplaySnoc(data, a + b[..n], b[n]);
    }
  }

  /** No write starts before an earlier one ends. */
  ghost predicate Ordered(ws: seq<Write>) {
    forall i, j :: 0 <= i < j < |ws| ==> ws[i].offset + |ws[i].bytes| <= ws[j].offset
  }

  /** After ordered writes every one of them can still be read back in full. */
  lemma {:induction false} ReplayReadsBack(data: seq<byte>, ws: seq<Write>, i: nat)
    requires Ordered(ws) && i < |ws| && ws[i].bytes != []
    ensures InFile(Replay(data, ws), ws[i].offset, |ws[i].bytes|)
    ensures Slice(Replay(data, ws), ws[i].offset, |ws[i].bytes|) == ws[i].bytes
  {
    var n := |ws| - 1;
    if i == n {
      OverwriteWrites(Replay(data, ws[..n]), ws[n].offset, ws[n].bytes);
    } else {
      ReplayReadsBack(data, ws[..n], i);
      OverwriteFrame(Replay(data, ws[..n]), ws[n].offset, ws[n].bytes, ws[i].offset, |ws[i].bytes|);
    }
  }

  predicate InWrite(w: Write, k: nat) {
    w.offset <= k < w.offset + |w.bytes|
  }

  /** Starting from an empty stream, whatever no write covers is zero. */
  lemma {:induction false} ReplayHoles(ws: seq<Write>, k: nat)
    requires k < |Replay([], ws)|
    requires forall i :: 0 <= i < |ws| ==> !InWrite(ws[i], k)
    ensures Replay([], ws)[k] == 0
  {
    if ws != [] {
      var n := |ws| - 1;
      assert !InWrite(ws[n], k);
      assert Replay([], ws)[k] == ByteAfter(Replay([], ws[..n]), ws[n].offset, ws[n].bytes, k);
      if k < |Replay([], ws[..n])| {
        ReplayHoles(ws[..n], k);
      }
    }
  }

  class OStream {
    var data: seq<byte>
    var pos: nat
    ghost var failures: nat  // how many operations have failed

    constructor ()
      ensures data == [] && pos == 0 && failures == 0
    {
      data, pos, failures := [], 0, 0;
    }

    /** May fail at any time; a failed write changes nothing. */
    method Write(bytes: seq<byte>) returns (ok: bool)
      modifies this
      ensures ok ==> data == Overwrite(old(data), old(pos), bytes) && pos == old(pos) + |bytes|
      ensures !ok ==> data == old(data) && pos == old(pos)
      ensures failures == old(failures) + if ok then 0 else 1
    {
      ok := *;
      if ok {
        data, pos := Overwrite(data, pos, bytes), pos + |bytes|;
      } else {
        failures := failures + 1;
      }
    }

    method SetPosition(newPos: nat)
      modifies this
      ensures data == old(data) && pos == newPos && failures == old(failures)
    {
      pos := newPos;
    }

    /** Truncates or extends the contents; the position stays where it was. */
    method SetSize(newSize: nat) returns (ok: bool)
      modifies this
      ensures pos == old(pos)
      ensures ok ==> data == (if newSize <= |old(data)| then old(data)[..newSize]
                              else old(data) + Zeros(newSize - |old(data)|))
      ensures !ok ==> data == old(data)
      ensures failures == old(failures) + if ok then 0 else 1
    {
      ok := *;
      if ok {
        data := if newSize <= |data| then data[..newSize] else data + Zeros(newSize - |data|);
      } else {
        failures := failures + 1;
      }
    }
  }
}
