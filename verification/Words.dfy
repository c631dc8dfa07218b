/** Sixty-four-bit words as numbers: arithmetic that wraps around, exclusive or, shifts and rotations. */
module Words {
  import opened Prelude
  import opened Bits

  const LIMIT: nat := 0x1_0000_0000_0000_0000

  type word = w: int | 0 <= w < LIMIT

  function Wrap(n: nat): (w: word) {
    n % LIMIT
  }

  function Add(a: word, b: word): (w: word) {
    Wrap(a + b)
  }

  /** The product, cut to a word. */
  function Mul(a: word, b: word): (w: word) {
    Wrap(a * b)
  }

  lemma LimitIsPower()
    ensures Pow2(64) == LIMIT
  {
    Pow2Values();
    Pow2Sum(32, 32);
  }

  function XorWords(a: word, b: word): (w: word) {
    LimitIsPower();
    ValueOf(Xor(BitsOf(a, 64), BitsOf(b, 64)))
  }

  function ShiftDown(a: word, k: nat): (w: word)
    requires k <= 64
  {
    LimitIsPower();
    ValueOf(ShiftRight(BitsOf(a, 64), k))
  }

  /** Rotates towards the high end: the top `k` bits come in at the bottom. */
  function RotateLeft(a: word, k: nat): (w: word)
    requires k <= 64
  {
    LimitIsPower();
    var b := BitsOf(a, 64);
    ValueOf(b[64 - k..] + b[..64 - k])
  }

  lemma Regroup(bit: nat, low: nat, p: nat, high: nat)
    ensures bit + 2 * (low + p * high) == bit + 2 * low + (2 * p) * high
  {
    assert (2 * p) * high == 2 * (p * high);
  }

  /** The value of joined bits: the second part counts above the first. */
  lemma {:induction false} ValueOfJoin(x: bits, y: bits)
    ensures ValueOf(x + y) == ValueOf(x) + Pow2(|x|) * ValueOf(y)
  {
    if x == [] {
      assert x + y == y;
    } else {
      var bit: nat := if x[0] then 1 else 0;
      ValueOfJoin(x[1..], y);
      calc {
        ValueOf(x + y);
        { assert (x + y)[1..] == x[1..] + y; }
        bit + 2 * (ValueOf(x[1..]) + Pow2(|x| - 1) * ValueOf(y));
        { Regroup(bit, ValueOf(x[1..]), Pow2(|x| - 1), ValueOf(y)); }
        bit + 2 * ValueOf(x[1..]) + (2 * Pow2(|x| - 1)) * ValueOf(y);
        ValueOf(x) + Pow2(|x|) * ValueOf(y);
      }
    }
  }

  lemma {:induction false} ZerosAreZero(n: nat)
    ensures ValueOf(Zeros(n)) == 0
  {
    if n > 0 {
      assert Zeros(n)[1..] == Zeros(n - 1);
      ZerosAreZero(n - 1);
    }
  }

  /** A word as its low `k` bits and the rest. */
  lemma SplitWord(a: word, k: nat)
    requires k <= 64
    ensures a == ValueOf(BitsOf(a, 64)[..k]) + Pow2(k) * ValueOf(BitsOf(a, 64)[k..])
    ensures ValueOf(BitsOf(a, 64)[..k]) < Pow2(k)
  {
    LimitIsPower();
    var b := BitsOf(a, 64);
    assert b == b[..k] + b[k..];
    ValueOfJoin(b[..k], b[k..]);
    ValueOfBits(a, 64);
  }

  lemma MulGrows(d: nat, p: nat, q: nat)
    requires p <= q
    ensures d * p <= d * q
  {}

  lemma QuotientOf(low: nat, d: nat, high: nat)
    requires low < d
    ensures (low + d * high) / d == high && (low + d * high) % d == low
  {
    assert (low + d * high) - d * ((low + d * high) / d) == (low + d * high) % d;
    var q := (low + d * high) / d;
    if q < high {
      MulGrows(d, q, high - 1);
    } else if q > high {
      MulGrows(d, high + 1, q);
    }
  }

  /** Shifting down divides by a power of two. */
  lemma ShiftDivides(a: word, k: nat)
    requires k <= 64
    ensures ShiftDown(a, k) == a / Pow2(k)
  {
    LimitIsPower();
    SplitWord(a, k);
    var b := BitsOf(a, 64);
    ValueOfJoin(b[k..], Zeros(k));
    ZerosAreZero(k);
    QuotientOf(ValueOf(b[..k]), Pow2(k), ValueOf(b[k..]));
  }

  /** Rotating multiplies by a power of two and brings what overflows in at the bottom. */
  lemma RotateMultiplies(a: word, k: nat)
    requires k <= 64
    ensures RotateLeft(a, k) == a / Pow2(64 - k) + Pow2(k) * (a % Pow2(64 - k))
  {
    LimitIsPower();
    SplitWord(a, 64 - k);
    var b := BitsOf(a, 64);
    ValueOfJoin(b[64 - k..], b[..64 - k]);
    QuotientOf(ValueOf(b[..64 - k]), Pow2(64 - k), ValueOf(b[64 - k..]));
  }

  // ----- Sign extension -----

  lemma {:induction false} OnesValue(n: nat)
    ensures ValueOf(Ones(n)) == Pow2(n) - 1
  {
    if n > 0 {
      assert Ones(n)[1..] == Ones(n - 1);
      OnesValue(n - 1);
    }
  }

  /** A word read as a two's complement number. */
  function AsSigned(w: word): int {
    if w < LIMIT / 2 then w else w - LIMIT
  }

  /** The low `n` bits of a word with the topmost of them repeated upwards, read as a signed number. */
  function SignExtend(value: word, n: nat): (r: Option<int>) {
    if n == 0 || n > 64 then None
    else
      var low := BitsOf(value, 64)[..n];
      LimitIsPower();
      Some(AsSigned(ValueOf(low + if low[n - 1] then Ones(64 - n) else Zeros(64 - n))))
  }

  lemma {:induction false} TopBitSays(b: bits)
    requires b != []
    ensures b[|b| - 1] <==> ValueOf(b) >= Pow2(|b| - 1)
  {
    if |b| > 1 {
      TopBitSays(b[1..]);
      assert b[1..][|b| - 2] == b[|b| - 1];
    } else {
      assert b[1..] == [];
    }
  }

  lemma Complement(n: nat, m: nat)
    requires n > 0
    ensures Pow2(n) * (Pow2(m) - 1) == Pow2(n + m) - Pow2(n)
    ensures Pow2(n) == 2 * Pow2(n - 1)
  {
    Pow2Sum(n, m);
  }

  lemma ZerosAbove(low: bits, m: nat)
    ensures ValueOf(low + Zeros(m)) == ValueOf(low)
  {
    ValueOfJoin(low, Zeros(m));
    ZerosAreZero(m);
  }

  /** Ones above the bits add what is missing to the next power of two. */
  lemma OnesAbove(low: bits, n: nat, m: nat)
    requires |low| == n > 0
    ensures ValueOf(low + Ones(m)) == ValueOf(low) + (Pow2(n + m) - Pow2(n))
  {
    calc {
      ValueOf(low + Ones(m));
      { ValueOfJoin(low, Ones(m)); }
      ValueOf(low) + Pow2(n) * ValueOf(Ones(m));
      { OnesValue(m); }
      ValueOf(low) + Pow2(n) * (Pow2(m) - 1);
      { Complement(n, m); }
      ValueOf(low) + (Pow2(n + m) - Pow2(n));
    }
  }

  lemma LowPart(value: word, n: nat)
    requires n <= 64
    ensures ValueOf(BitsOf(value, 64)[..n]) == value % Pow2(n)
  {
    SplitWord(value, n);
    QuotientOf(ValueOf(BitsOf(value, 64)[..n]), Pow2(n), ValueOf(BitsOf(value, 64)[n..]));
  }

  /** Sign extension gives the number of `n` bits that agrees with the value up to multiples of two to the `n`. */
  lemma SignExtendMeaning(value: word, n: nat)
    requires 1 <= n <= 64
    ensures SignExtend(value, n) ==
            Some(if value % Pow2(n) < Pow2(n - 1) then value % Pow2(n) else value % Pow2(n) - Pow2(n))
  {
    LimitIsPower();
    LowPart(value, n);
    var low := BitsOf(value, 64)[..n];
    TopBitSays(low);
    ZerosAbove(low, 64 - n);
    OnesAbove(low, n, 64 - n);
    HalfOf(n);
    Complement(n, 0);
  }

  lemma HalfOf(n: nat)
    requires 1 <= n <= 64
    ensures Pow2(n - 1) <= LIMIT / 2
  {
    LimitIsPower();
    Pow2Sum(n - 1, 64 - n);
    Pow2Sum(63, 1);
    assert Pow2(1) == 2;
    Grows(Pow2(n - 1), Pow2(64 - n));
  }

  lemma Grows(a: nat, b: nat)
    requires b > 0
    ensures a <= a * b
  {}
}
