/** Bytes, byte orders and the fixed-width integers that travel on the wire. */
module Bytes {

  type byte = b: int | 0 <= b < 256

  datatype ByteOrder = LittleEndian | BigEndian

  function Pow256(n: nat): (r: nat)
    ensures r > 0
  {
    if n == 0 then 1 else 256 * Pow256(n - 1)
  }

  function LittleValue(s: seq<byte>): (v: nat)
    ensures v < Pow256(|s|)
  {
    if s == [] then 0 else s[0] + 256 * LittleValue(s[1..])
  }

  function LittleBytes(v: nat, width: nat): (s: seq<byte>)
    requires v < Pow256(width)
    ensures |s| == width
    decreases width
  {
    if width == 0 then [] else [v % 256] + LittleBytes(v / 256, width - 1)
  }

  function BigValue(s: seq<byte>): (v: nat)
    ensures v < Pow256(|s|)
  {
    if s == [] then 0 else s[|s| - 1] + 256 * BigValue(s[..|s| - 1])
  }

  function BigBytes(v: nat, width: nat): (s: seq<byte>)
    requires v < Pow256(width)
    ensures |s| == width
    decreases width
  {
    if width == 0 then [] else BigBytes(v / 256, width - 1) + [v % 256]
  }

  function FromBytes(s: seq<byte>, order: ByteOrder): (v: nat)
    ensures v < Pow256(|s|)
  {
    if order.LittleEndian? then LittleValue(s) else BigValue(s)
  }

  function ToBytes(v: nat, width: nat, order: ByteOrder): (s: seq<byte>)
    requires v < Pow256(width)
    ensures |s| == width
  {
    if order.LittleEndian? then LittleBytes(v, width) else BigBytes(v, width)
  }

  /** Two's complement reading of an unsigned value of `width` bytes. */
  function ToSigned(v: nat, width: nat): (n: int)
    requires v < Pow256(width)
    ensures 0 - Pow256(width) <= 2 * n < Pow256(width)
  {
    if 2 * v < Pow256(width) then v else v - Pow256(width)
  }

  function FromSigned(n: int, width: nat): (v: nat)
    requires 0 - Pow256(width) <= 2 * n < Pow256(width)
    ensures v < Pow256(width)
  {
    if n >= 0 then n else n + Pow256(width)
  }

  function Repeat(b: byte, n: nat): (s: seq<byte>)
    ensures |s| == n
    ensures forall i :: 0 <= i < n ==> s[i] == b
    decreases n, b
  {
    if n == 0 then [] else Repeat(b, n - 1) + [b]
  }

  lemma {:induction false} LittleRoundTrip(v: nat, width: nat)
    requires v < Pow256(width)
    ensures LittleValue(LittleBytes(v, width)) == v
    decreases width
  {
    if width > 0 {
      LittleRoundTrip(v / 256, width - 1);
      assert LittleBytes(v, width)[1..] == LittleBytes(v / 256, width - 1);
    }
  }

  lemma {:induction false} BigRoundTrip(v: nat, width: nat)
    requires v < Pow256(width)
    ensures BigValue(BigBytes(v, width)) == v
    decreases width
  {
    if width > 0 {
      BigRoundTrip(v / 256, width - 1);
      assert BigBytes(v, width)[..width - 1] == BigBytes(v / 256, width - 1);
    }
  }

  lemma LowDigit(digit: byte, rest: nat)
    ensures (digit + 256 * rest) % 256 == digit && (digit + 256 * rest) / 256 == rest
  {
  }

  lemma {:induction false} LittleRoundTripBack(s: seq<byte>)
    ensures LittleBytes(LittleValue(s), |s|) == s
  {
    if s != [] {
      LittleRoundTripBack(s[1..]);
      LowDigit(s[0], LittleValue(s[1..]));
      assert s == [s[0]] + s[1..];
    }
  }

  lemma {:induction false} BigRoundTripBack(s: seq<byte>)
    ensures BigBytes(BigValue(s), |s|) == s
  {
    if s != [] {
      BigRoundTripBack(s[..|s| - 1]);
      LowDigit(s[|s| - 1], BigValue(s[..|s| - 1]));
      assert s == s[..|s| - 1] + [s[|s| - 1]];
    }
  }

  /** Reading what was written gives the number back, in either byte order. */
  lemma ReadWritten(v: nat, width: nat, order: ByteOrder)
    requires v < Pow256(width)
    ensures FromBytes(ToBytes(v, width, order), order) == v
  {
    LittleRoundTrip(v, width);
    BigRoundTrip(v, width);
  }

  /** Writing what was read gives the bytes back, in either byte order. */
  lemma WriteRead(s: seq<byte>, order: ByteOrder)
    ensures ToBytes(FromBytes(s, order), |s|, order) == s
  {
    LittleRoundTripBack(s);
    BigRoundTripBack(s);
  }

  lemma Adjoin(s: seq<byte>, a: nat, b: nat, c: nat)
    requires a <= b <= c <= |s|
    ensures s[a..b] + s[b..c] == s[a..c]
  {
  }

  lemma SliceBehind(a: seq<byte>, b: seq<byte>, from: nat, to: nat)
    requires from <= to <= |b|
    ensures (a + b)[|a| + from..|a| + to] == b[from..to]
  {
  }

  lemma SliceOfSlice(s: seq<byte>, base: nat, end: nat, from: nat, to: nat)
    requires base <= end <= |s| && from <= to <= end - base
    ensures s[base..end][from..to] == s[base + from..base + to]
  {
    var inner := s[base..end];
    assert forall k | 0 <= k < to - from :: inner[from..to][k] == inner[from + k] == s[base + from + k];
  }
}
