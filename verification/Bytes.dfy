/** Fixed-width integers, little-endian fields and byte strings, as the rest of the model uses them. */
module Bytes {

  type byte = x: nat | x < 0x100
  type uint16 = x: nat | x < 0x1_0000
  type uint32 = x: nat | x < 0x1_0000_0000
  type uint64 = x: nat | x < 0x1_0000_0000_0000_0000

  const UINT32_MOD := 0x1_0000_0000
  const UINT64_MOD := 0x1_0000_0000_0000_0000

  datatype Option<+T> = None | Some(value: T)

  /** The low 64 bits of a number, that is, n modulo 2^64 (see Low64IsModulo). */
  function Low64(n: nat): uint64 {
    if n < UINT64_MOD then n else Low64(n - UINT64_MOD)
  }

  /** Sum and difference of 64-bit machine words. */
  function Add64(a: nat, b: nat): uint64 {
    Low64(a + b)
  }

  lemma {:induction false} Low64IsModulo(n: nat)
    ensures Low64(n) == n % UINT64_MOD
  {
    if n >= UINT64_MOD {
      Low64IsModulo(n - UINT64_MOD);
    }
  }

  lemma {:induction false} Low64Add(a: nat, b: nat)
    ensures Add64(Low64(a), b) == Low64(a + b)
  {
    if a >= UINT64_MOD {
      Low64Add(a - UINT64_MOD, b);
    }
  }

  function Sub64(a: uint64, b: uint64): uint64 {
    if a >= b then a - b else a + UINT64_MOD - b
  }

  function Min64(a: uint64, b: uint64): uint64 {
    if a <= b then a else b
  }

  function Max64(a: uint64, b: uint64): uint64 {
    if a <= b then b else a
  }

  // ---------------------------------------------------------------- little-endian fields

  function Pow256(width: nat): nat {
    if width == 0 then 1 else 256 * Pow256(width - 1)
  }

  function Encode(n: nat, width: nat): (s: seq<byte>)
    ensures |s| == width
  {
    if width == 0 then [] else [n % 256] + Encode(n / 256, width - 1)
  }

  function Decode(s: seq<byte>): (n: nat)
    ensures n < Pow256(|s|)
  {
    if s == [] then 0 else s[0] + 256 * Decode(s[1..])
  }

  lemma {:induction false} DecodeEncode(n: nat, width: nat)
    requires n < Pow256(width)
    ensures Decode(Encode(n, width)) == n
  {
    if width > 0 {
      DecodeEncode(n / 256, width - 1);
      assert Encode(n, width)[1..] == Encode(n / 256, width - 1);
    }
  }

  lemma Widths()
    ensures Pow256(2) == 0x1_0000
    ensures Pow256(4) == UINT32_MOD
    ensures Pow256(8) == UINT64_MOD
  {
    assert Pow256(1) == 256;
    assert Pow256(3) == 256 * Pow256(2);
    assert Pow256(5) == 256 * Pow256(4);
    assert Pow256(6) == 256 * Pow256(5);
    assert Pow256(7) == 256 * Pow256(6);
  }

  function LE32(n: uint32): (s: seq<byte>)
    ensures |s| == 4
  {
    Encode(n, 4)
  }

  function LE64(n: uint64): (s: seq<byte>)
    ensures |s| == 8
  {
    Encode(n, 8)
  }

  predicate InFile(file: seq<byte>, pos: nat, width: nat) {
    pos + width <= |file|
  }

  function Slice(file: seq<byte>, pos: nat, width: nat): (s: seq<byte>)
    requires InFile(file, pos, width)
    ensures |s| == width
  {
    file[pos..pos + width]
  }

  function Field32(file: seq<byte>, pos: nat): uint32
    requires InFile(file, pos, 4)
  {
    Widths();
    Decode(Slice(file, pos, 4))
  }

  function Field64(file: seq<byte>, pos: nat): uint64
    requires InFile(file, pos, 8)
  {
    Widths();
    Decode(Slice(file, pos, 8))
  }

  function Field16(file: seq<byte>, pos: nat): uint16
    requires InFile(file, pos, 2)
  {
    Widths();
    Decode(Slice(file, pos, 2))
  }

  lemma Field32Of(n: uint32, file: seq<byte>, pos: nat)
    requires InFile(file, pos, 4) && Slice(file, pos, 4) == LE32(n)
    ensures Field32(file, pos) == n
  {
    Widths();
    DecodeEncode(n, 4);
  }

  lemma Field64Of(n: uint64, file: seq<byte>, pos: nat)
    requires InFile(file, pos, 8) && Slice(file, pos, 8) == LE64(n)
    ensures Field64(file, pos) == n
  {
    Widths();
    DecodeEncode(n, 8);
  }

  /** Numbers from bytes, the least significant one first. */
  function Two(b0: byte, b1: byte): uint16 {
    var n0: nat, n1: nat := b0, b1;
    n0 + 0x100 * n1
  }

  function Four(b0: byte, b1: byte, b2: byte, b3: byte): uint32 {
    var n0: nat, n1: nat, n2: nat, n3: nat := b0, b1, b2, b3;
    n0 + 0x100 * n1 + 0x1_0000 * n2 + 0x100_0000 * n3
  }

  lemma DecodeTwo(s: seq<byte>)
    requires |s| == 2
    ensures Decode(s) == Two(s[0], s[1])
  {
    assert Decode(s[1..]) == s[1];
  }

  lemma DecodeFour(s: seq<byte>)
    requires |s| >= 4
    ensures var low: nat := Four(s[0], s[1], s[2], s[3]); Decode(s) == low + 0x1_0000_0000 * Decode(s[4..])
  {
    assert s[1..][1..] == s[2..] && s[2..][1..] == s[3..] && s[3..][1..] == s[4..];
    assert Decode(s[3..]) == s[3] + 256 * Decode(s[4..]);
    assert Decode(s[2..]) == s[2] + 256 * Decode(s[3..]);
    assert Decode(s[1..]) == s[1] + 256 * Decode(s[2..]);
  }

  /** Fields are little-endian. */
  lemma FieldBytes(file: seq<byte>, pos: nat)
    ensures InFile(file, pos, 2) ==> Field16(file, pos) == Two(file[pos], file[pos + 1])
    ensures InFile(file, pos, 4) ==>
              Field32(file, pos) == Four(file[pos], file[pos + 1], file[pos + 2], file[pos + 3])
    ensures InFile(file, pos, 8) ==>
              var low: nat, high: nat := Field32(file, pos), Field32(file, pos + 4);
              Field64(file, pos) == low + 0x1_0000_0000 * high
  {
    hide Two, Four;
    if InFile(file, pos, 2) {
      DecodeTwo(Slice(file, pos, 2));
    }
    if InFile(file, pos, 4) {
      DecodeFour(Slice(file, pos, 4));
      assert Slice(file, pos, 4)[4..] == [];
    }
    if InFile(file, pos, 8) {
      var s := Slice(file, pos, 8);
      DecodeFour(s);
      DecodeFour(s[..4]);
      assert s[..4][4..] == [] && s[..4] == Slice(file, pos, 4) && s[4..] == Slice(file, pos + 4, 4);
    }
  }

  /** A slice of a slice is a slice of the file. */
  lemma SliceOfSlice(file: seq<byte>, pos: nat, width: nat, off: nat, w: nat)
    requires InFile(file, pos, width) && off + w <= width
    ensures Slice(file, pos + off, w) == Slice(Slice(file, pos, width), off, w)
  {
    var a, b := Slice(file, pos + off, w), Slice(Slice(file, pos, width), off, w);
    assert forall i :: 0 <= i < w ==> a[i] == file[pos + off + i] && b[i] == Slice(file, pos, width)[off + i];
    assert a == b;
  }

  /** The bytes lie in the file at this position. */
  predicate HoldsAt(file: seq<byte>, pos: nat, bytes: seq<byte>) {
    InFile(file, pos, |bytes|) && Slice(file, pos, |bytes|) == bytes
  }

  lemma HoldsSplit(file: seq<byte>, pos: nat, a: seq<byte>, b: seq<byte>)
    ensures HoldsAt(file, pos, a + b) <==> HoldsAt(file, pos, a) && HoldsAt(file, pos + |a|, b)
  {
    if HoldsAt(file, pos, a + b) {
      SliceOfSlice(file, pos, |a + b|, 0, |a|);
      SliceOfSlice(file, pos, |a + b|, |a|, |b|);
      assert (a + b)[..|a|] == a && (a + b)[|a|..] == b;
    }
    if HoldsAt(file, pos, a) && HoldsAt(file, pos + |a|, b) {
      assert Slice(file, pos, |a + b|) == Slice(file, pos, |a|) + Slice(file, pos + |a|, |b|);
    }
  }

  function Zeros(n: nat): (s: seq<byte>)
    ensures |s| == n
  {
    seq(n, _ => 0)
  }

  // ---------------------------------------------------------------- concatenated parts

  function Flatten(parts: seq<seq<byte>>): seq<byte> {
    if parts == [] then [] else Flatten(parts[..|parts| - 1]) + parts[|parts| - 1]
  }

  lemma FlattenSnoc(parts: seq<seq<byte>>, last: seq<byte>)
    ensures Flatten(parts + [last]) == Flatten(parts) + last
  {
    assert (parts + [last])[..|parts|] == parts;
  }

  lemma Joined(a: seq<byte>, b: seq<byte>, c: seq<byte>)
    ensures a + b + c == a + (b + c)
  {
  }

  lemma {:induction false} FlattenConcat(a: seq<seq<byte>>, b: seq<seq<byte>>)
    ensures Flatten(a + b) == Flatten(a) + Flatten(b)
  {
    if b == [] {
      assert a + b == a;
    } else {
      var n := |b| - 1;
      FlattenConcat(a, b[..n]);
      FlattenSnoc(a + b[..n], b[n]);
      FlattenSnoc(b[..n], b[n]);
      hide Flatten;
      assert a + b == (a + b[..n]) + [b[n]] && b == b[..n] + [b[n]];
      Joined(Flatten(a), Flatten(b[..n]), b[n]);
    }
  }

  /** Part i of a concatenation starts where the parts before it end. */
  lemma FlattenPart(parts: seq<seq<byte>>, i: nat)
    requires i < |parts|
    ensures |Flatten(parts[..i])| + |parts[i]| == |Flatten(parts[..i + 1])| <= |Flatten(parts)|
    ensures Slice(Flatten(parts), |Flatten(parts[..i])|, |parts[i]|) == parts[i]
  {
    FlattenSnoc(parts[..i], parts[i]);
    assert parts[..i] + [parts[i]] == parts[..i + 1];
    FlattenConcat(parts[..i + 1], parts[i + 1..]);
    assert parts[..i + 1] + parts[i + 1..] == parts;
  }

  /** Where a concatenation lies, each part lies behind the parts before it. */
  lemma HoldsPart(file: seq<byte>, pos: nat, parts: seq<seq<byte>>, i: nat)
    requires HoldsAt(file, pos, Flatten(parts)) && i < |parts|
    ensures HoldsAt(file, pos + |Flatten(parts[..i])|, parts[i])
  {
    FlattenPart(parts, i);
    SliceOfSlice(file, pos, |Flatten(parts)|, |Flatten(parts[..i])|, |parts[i]|);
  }

  lemma {:induction false} EqualWidths(parts: seq<seq<byte>>, width: nat)
    requires forall i :: 0 <= i < |parts| ==> |parts[i]| == width
    ensures |Flatten(parts)| == width * |parts|
  {
    if parts == [] {
      TimesNothing(width);
    } else {
      var n := |parts| - 1;
      EqualWidths(parts[..n], width);
      assert |Flatten(parts)| == |Flatten(parts[..n])| + |parts[n]|;
      TimesOneMore(width, n);
    }
  }

  lemma TimesNothing(width: nat)
    ensures width * 0 == 0
  {
  }

  lemma TimesOneMore(width: nat, n: nat)
    ensures width * (n + 1) == width * n + width
  {
  }
}
