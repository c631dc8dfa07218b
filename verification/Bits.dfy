/** Machine words as bit lists, least significant bit first. */
module Bits {

  type bits = seq<bool>

  function Pow2(n: nat): (r: nat)
    ensures r > 0
  {
    if n == 0 then 1 else 2 * Pow2(n - 1)
  }

  /** The low `n` bits of `v`. */
  function BitsOf(v: nat, n: nat): (b: bits)
    ensures |b| == n
    decreases n, v
  {
    if n == 0 then [] else [v % 2 == 1] + BitsOf(v / 2, n - 1)
  }

  function ValueOf(b: bits): (v: nat)
    ensures v < Pow2(|b|)
  {
    if b == [] then 0 else (if b[0] then 1 else 0) + 2 * ValueOf(b[1..])
  }

  function Zeros(n: nat): (b: bits)
    ensures |b| == n
    ensures forall i :: 0 <= i < n ==> !b[i]
  {
    seq(n, i => false)
  }

  function Ones(n: nat): (b: bits)
    ensures |b| == n
    ensures forall i :: 0 <= i < n ==> b[i]
  {
    seq(n, i => true)
  }

  function Xor(a: bits, b: bits): (r: bits)
    requires |a| == |b|
    ensures |r| == |a|
    ensures forall i :: 0 <= i < |a| ==> r[i] == (a[i] != b[i])
  {
    seq(|a|, i requires 0 <= i < |a| => a[i] != b[i])
  }

  function Not(a: bits): (r: bits)
    ensures |r| == |a|
    ensures forall i :: 0 <= i < |a| ==> r[i] == !a[i]
  {
    seq(|a|, i requires 0 <= i < |a| => !a[i])
  }

  /** Shift right by `k`; zeros enter at the top. */
  function ShiftRight(a: bits, k: nat): (r: bits)
    requires k <= |a|
    ensures |r| == |a|
  {
    a[k..] + Zeros(k)
  }

  lemma {:induction false} ValueOfBits(v: nat, n: nat)
    requires v < Pow2(n)
    ensures ValueOf(BitsOf(v, n)) == v
    decreases n
  {
    if n > 0 {
      ValueOfBits(v / 2, n - 1);
      assert BitsOf(v, n)[1..] == BitsOf(v / 2, n - 1);
    }
  }

  lemma {:induction false} BitsOfValue(b: bits)
    ensures BitsOf(ValueOf(b), |b|) == b
  {
    if b != [] {
      BitsOfValue(b[1..]);
    }
  }

  lemma {:induction false} BitsOfZero(n: nat)
    ensures BitsOf(0, n) == Zeros(n)
  {
    if n > 0 {
      BitsOfZero(n - 1);
      assert BitsOf(0, n) == [false] + BitsOf(0, n - 1);
    }
  }

  /** Widening a small value appends zeros. */
  lemma {:induction false} BitsOfPadded(v: nat, k: nat, n: nat)
    requires k <= n && v < Pow2(k)
    ensures BitsOf(v, n) == BitsOf(v, k) + Zeros(n - k)
    decreases k
  {
    if k == 0 {
      BitsOfZero(n);
    } else {
      BitsOfPadded(v / 2, k - 1, n - 1);
      calc {
        BitsOf(v, n);
        [v % 2 == 1] + (BitsOf(v / 2, k - 1) + Zeros(n - k));
        BitsOf(v, k) + Zeros(n - k);
      }
    }
  }

  /** The top bit is set in values of the upper half. */
  lemma {:induction false} TopBit(v: nat, n: nat)
    requires n > 0 && Pow2(n - 1) <= v < Pow2(n)
    ensures BitsOf(v, n)[n - 1]
    decreases n
  {
    if n > 1 {
      TopBit(v / 2, n - 1);
      assert BitsOf(v, n)[n - 1] == BitsOf(v / 2, n - 1)[n - 2];
    }
  }

  lemma {:induction false} Pow2Sum(m: nat, n: nat)
    ensures Pow2(m + n) == Pow2(m) * Pow2(n)
  {
    if m > 0 {
      Pow2Sum(m - 1, n);
    }
  }

  lemma Pow2Values()
    ensures Pow2(8) == 0x100 && Pow2(15) == 0x8000 && Pow2(16) == 0x1_0000
    ensures Pow2(31) == 0x8000_0000 && Pow2(32) == 0x1_0000_0000
  {
    assert Pow2(4) == 16;
    assert Pow2(7) == 128;
    Pow2Sum(4, 4);
    Pow2Sum(8, 7);
    Pow2Sum(8, 8);
    Pow2Sum(16, 15);
    Pow2Sum(16, 16);
  }
}
