/** The built-in checksum algorithms: additive sums and the reflected, table-driven CRCs.
    A CRC register is a bit list, least significant bit first, exactly as wide as the CRC. */
module Checksums {
  import opened Prelude
  import opened Bytes
  import opened Bits

  const CRC16_CCITT_POLYNOMIAL := 0x8408
  const CRC32_POLYNOMIAL := 0xEDB88320
  const CRC32C_POLYNOMIAL := 0x82F63B78

  // ----- The reference: reflected polynomial division, one message bit at a time -----

  /** Shifts one message bit in and, if a one falls out, subtracts the generator. */
  function FeedBit(r: bits, poly: bits, m: bool): (r': bits)
    requires |r| == |poly| > 0
    ensures |r'| == |r|
  {
    if r[0] != m then Xor(ShiftRight(r, 1), poly) else ShiftRight(r, 1)
  }

  function FeedBits(r: bits, poly: bits, ms: bits): (r': bits)
    requires |r| == |poly| > 0
    ensures |r'| == |r|
    decreases |ms|
  {
    if ms == [] then r else FeedBits(FeedBit(r, poly, ms[0]), poly, ms[1..])
  }

  /** Each byte as eight bits, the low bit first. */
  function Octets(data: seq<byte>): (os: seq<bits>)
    ensures |os| == |data|
    ensures forall i :: 0 <= i < |os| ==> os[i] == BitsOf(data[i], 8)
  {
    seq(|data|, i requires 0 <= i < |data| => BitsOf(data[i], 8))
  }

  function Flatten(os: seq<bits>): (ms: bits) {
    if os == [] then [] else os[0] + Flatten(os[1..])
  }

  /** The complemented remainder of a bit stream. */
  function Digest(r: bits, poly: bits, ms: bits): (v: nat)
    requires |r| == |poly| > 0
    ensures v < Pow2(|r|)
  {
    ValueOf(Not(FeedBits(r, poly, ms)))
  }

  /** The CRC of sections C.2 and C.3 of RFC 1662 and section 12.1 of RFC 3720:
      all ones in, remainder complemented. */
  function Crc(poly: nat, width: nat, data: seq<byte>): (v: nat)
    requires width > 0
    ensures v < Pow2(width)
  {
    Digest(Ones(width), BitsOf(poly, width), Flatten(Octets(data)))
  }

  // ----- The table -----

  function Step(r: bits, poly: bits): (r': bits)
    requires |r| == |poly| > 0
    ensures |r'| == |r|
  {
    if r[0] then Xor(ShiftRight(r, 1), poly) else ShiftRight(r, 1)
  }

  function Steps(r: bits, poly: bits, k: nat): (r': bits)
    requires |r| == |poly| > 0
    ensures |r'| == |r|
    decreases k, r
  {
    if k == 0 then r else Steps(Step(r, poly), poly, k - 1)
  }

  /** The register after one more byte, through the table of `poly`. */
  function TableStep(r: bits, table: seq<bits>, b: byte): (r': bits)
    requires |r| >= 8 && |table| == 256 && forall t :: t in table ==> |t| == |r|
    ensures |r'| == |r|
  {
    var low := ValueOf(Xor(r, BitsOf(b, |r|))[..8]);
    Pow2Values();
    Xor(ShiftRight(r, 8), table[low])
  }

  ghost predicate IsTable(table: seq<bits>, poly: bits)
    requires |poly| > 0
  {
    && |table| == 256
    && forall i :: 0 <= i < 256 ==> table[i] == Steps(BitsOf(i, |poly|), poly, 8)
  }

  lemma StepIsLinear(a: bits, b: bits, poly: bits)
    requires |a| == |b| == |poly| > 0
    ensures Step(Xor(a, b), poly) == Xor(Step(a, poly), Step(b, poly))
  {
  }

  lemma {:induction false} StepsAreLinear(a: bits, b: bits, poly: bits, k: nat)
    requires |a| == |b| == |poly| > 0
    ensures Steps(Xor(a, b), poly, k) == Xor(Steps(a, poly, k), Steps(b, poly, k))
    decreases k
  {
    if k > 0 {
      StepIsLinear(a, b, poly);
      StepsAreLinear(Step(a, poly), Step(b, poly), poly, k - 1);
    }
  }

  lemma {:induction false} StepsOfZeroLow(r: bits, poly: bits, k: nat)
    requires |r| == |poly| > 0 && k <= |r|
    requires forall i :: 0 <= i < k ==> !r[i]
    ensures Steps(r, poly, k) == ShiftRight(r, k)
    decreases k
  {
    if k == 0 {
      assert ShiftRight(r, 0) == r;
    } else {
      StepsOfZeroLow(ShiftRight(r, 1), poly, k - 1);
      assert ShiftRight(ShiftRight(r, 1), k - 1) == ShiftRight(r, k);
    }
  }

  /** Feeding `k` bits one at a time is xoring them into the low end and stepping `k` times. */
  lemma {:induction false} FeedIsXorThenSteps(r: bits, poly: bits, e: bits, k: nat)
    requires |r| == |e| == |poly| > 0 && k <= |e|
    requires forall i :: k <= i < |e| ==> !e[i]
    ensures FeedBits(r, poly, e[..k]) == Steps(Xor(r, e), poly, k)
    decreases k
  {
    if k == 0 {
      assert Xor(r, e) == r;
    } else {
      assert Step(Xor(r, e), poly) == Xor(FeedBit(r, poly, e[0]), ShiftRight(e, 1));
      FeedIsXorThenSteps(FeedBit(r, poly, e[0]), poly, ShiftRight(e, 1), k - 1);
      assert ShiftRight(e, 1)[..k - 1] == e[..k][1..];
    }
  }

  lemma HighAndLow(x: bits, k: nat)
    requires k <= |x|
    ensures x == Xor(Zeros(k) + x[k..], x[..k] + Zeros(|x| - k))
    ensures ShiftRight(Zeros(k) + x[k..], k) == ShiftRight(x, k)
  {
  }

  /** Eight steps shift the high bits down and map the low eight on their own. */
  lemma StepsSplit(x: bits, poly: bits, k: nat)
    requires |x| == |poly| > 0 && k <= |x|
    ensures Steps(x, poly, k) == Xor(ShiftRight(x, k), Steps(x[..k] + Zeros(|x| - k), poly, k))
  {
    var high := Zeros(k) + x[k..];
    var low := x[..k] + Zeros(|x| - k);
    HighAndLow(x, k);
    StepsAreLinear(high, low, poly, k);
    StepsOfZeroLow(high, poly, k);
  }

  /** Feeding `k` low bits is one shift by `k` and one precomputed entry. */
  lemma ShiftAndEntry(r: bits, poly: bits, e: bits, k: nat, entry: bits)
    requires |r| == |e| == |poly| > 0 && k <= |e|
    requires forall i :: k <= i < |e| ==> !e[i]
    requires entry == Steps(Xor(r, e)[..k] + Zeros(|r| - k), poly, k)
    ensures Xor(ShiftRight(r, k), entry) == FeedBits(r, poly, e[..k])
  {
    FeedIsXorThenSteps(r, poly, e, k);
    StepsSplit(Xor(r, e), poly, k);
    ShiftForgetsLow(r, e, k);
  }

  lemma ShiftForgetsLow(r: bits, e: bits, k: nat)
    requires |r| == |e| && k <= |e|
    requires forall i :: k <= i < |e| ==> !e[i]
    ensures ShiftRight(Xor(r, e), k) == ShiftRight(r, k)
  {
    assert Xor(r, e)[k..] == r[k..];
  }

  /** One table look-up does the work of feeding the eight bits of the byte. */
  lemma TableStepIsFeed(r: bits, poly: bits, table: seq<bits>, b: byte)
    requires |r| == |poly| >= 8 && IsTable(table, poly)
    ensures TableStep(r, table, b) == FeedBits(r, poly, BitsOf(b, 8))
  {
    var e := BitsOf(b, |r|);
    Pow2Values();
    BitsOfPadded(b, 8, |r|);
    assert e[..8] == BitsOf(b, 8);
    var low := Xor(r, e)[..8];
    TableEntry(table, poly, low);
    ShiftAndEntry(r, poly, e, 8, table[ValueOf(low)]);
  }

  lemma TableEntry(table: seq<bits>, poly: bits, low: bits)
    requires |poly| >= 8 && |low| == 8 && IsTable(table, poly)
    ensures ValueOf(low) < 256 && table[ValueOf(low)] == Steps(low + Zeros(|poly| - 8), poly, 8)
  {
    Pow2Values();
    BitsOfValue(low);
    BitsOfPadded(ValueOf(low), 8, |poly|);
  }

  lemma {:induction false} FeedConcat(r: bits, poly: bits, a: bits, b: bits)
    requires |r| == |poly| > 0
    ensures FeedBits(r, poly, a + b) == FeedBits(FeedBits(r, poly, a), poly, b)
    decreases |a|
  {
    if a == [] {
      assert a + b == b;
    } else {
      assert (a + b)[0] == a[0] && (a + b)[1..] == a[1..] + b;
      FeedConcat(FeedBit(r, poly, a[0]), poly, a[1..], b);
    }
  }

  lemma {:induction false} FlattenConcat(a: seq<bits>, b: seq<bits>)
    ensures Flatten(a + b) == Flatten(a) + Flatten(b)
  {
    if a == [] {
      assert a + b == b;
    } else {
      FlattenConcat(a[1..], b);
      assert (a + b)[1..] == a[1..] + b;
    }
  }

  lemma FeedOneMore(r: bits, poly: bits, os: seq<bits>, i: nat)
    requires |r| == |poly| > 0 && i < |os|
    ensures FeedBits(r, poly, Flatten(os[..i + 1])) == FeedBits(FeedBits(r, poly, Flatten(os[..i])), poly, os[i])
  {
    assert os[..i + 1] == os[..i] + [os[i]];
    FlattenConcat(os[..i], [os[i]]);
    assert Flatten([os[i]]) == os[i] + Flatten([]) == os[i];
    FeedConcat(r, poly, Flatten(os[..i]), os[i]);
  }

  /** One table entry: eight conditional shifts. */
  method ShiftOctet(start: bits, generator: bits) returns (value: bits)
    requires |start| == |generator| > 0
    ensures value == Steps(start, generator, 8)
  {
    value := start;
    var bit := 0;
    while bit < 8
      invariant 0 <= bit <= 8 && |value| == |generator|
      invariant Steps(value, generator, 8 - bit) == Steps(start, generator, 8)
    {
      value := if value[0] then Xor(ShiftRight(value, 1), generator) else ShiftRight(value, 1);
      bit := bit + 1;
    }
  }

  method MakeCrcTable(poly: nat, width: nat) returns (table: seq<bits>)
    requires width >= 8
    ensures IsTable(table, BitsOf(poly, width))
  {
    var generator := BitsOf(poly, width);
    table := [];
    for index := 0 to 256
      invariant |table| == index
      invariant forall i :: 0 <= i < index ==> table[i] == Steps(BitsOf(i, width), generator, 8)
    {
      var value := ShiftOctet(BitsOf(index, width), generator);
      table := table + [value];
    }
  }

  /** The table-driven loop computes the bit-by-bit polynomial division. */
  method ComputeCrc(poly: nat, width: nat, data: seq<byte>) returns (digest: nat)
    requires width >= 8
    ensures digest == Crc(poly, width, data)
  {
    var table := MakeCrcTable(poly, width);
    ghost var generator := BitsOf(poly, width);
    assert forall t :: t in table ==> |t| == width;
    var crc := Ones(width);
    ghost var os := Octets(data);
    var i := 0;
    while i < |data|
      invariant 0 <= i <= |data| && |crc| == width
      invariant crc == FeedBits(Ones(width), generator, Flatten(os[..i]))
    {
      TableStepIsFeed(crc, generator, table, data[i]);
      crc := TableStep(crc, table, data[i]);
      FeedOneMore(Ones(width), generator, os, i);
      i := i + 1;
    }
    assert os[..i] == os;
    digest := ValueOf(Not(crc));
  }

  // ----- Error detection -----

  lemma StepIsInjective(a: bits, b: bits, poly: bits)
    requires |a| == |b| == |poly| > 0 && poly[|poly| - 1]
    requires Step(a, poly) == Step(b, poly)
    ensures a == b
  {
    var top := |a| - 1;
    assert Step(a, poly)[top] == a[0] && Step(b, poly)[top] == b[0];
    forall i | 1 <= i < |a|
      ensures a[i] == b[i]
    {
      assert Step(a, poly)[i - 1] == (a[i] != (a[0] && poly[i - 1]));
      assert Step(b, poly)[i - 1] == (b[i] != (b[0] && poly[i - 1]));
    }
  }

  lemma {:induction false} StepsAreInjective(a: bits, b: bits, poly: bits, k: nat)
    requires |a| == |b| == |poly| > 0 && poly[|poly| - 1]
    requires Steps(a, poly, k) == Steps(b, poly, k)
    ensures a == b
    decreases k
  {
    if k > 0 {
      StepsAreInjective(Step(a, poly), Step(b, poly), poly, k - 1);
      StepIsInjective(a, b, poly);
    }
  }

  lemma {:induction false} FeedIsInjective(a: bits, b: bits, poly: bits, ms: bits)
    requires |a| == |b| == |poly| > 0 && poly[|poly| - 1]
    requires FeedBits(a, poly, ms) == FeedBits(b, poly, ms)
    ensures a == b
    decreases |ms|
  {
    if ms != [] {
      FeedIsInjective(FeedBit(a, poly, ms[0]), FeedBit(b, poly, ms[0]), poly, ms[1..]);
      var a', b' := a[0 := a[0] != ms[0]], b[0 := b[0] != ms[0]];
      assert ShiftRight(a', 1) == ShiftRight(a, 1) && ShiftRight(b', 1) == ShiftRight(b, 1);
      StepIsInjective(a', b', poly);
      assert a == a'[0 := a[0]] && b == b'[0 := b[0]];
    }
  }

  /** From one register, a burst no longer than the register can be told from the register it leaves. */
  lemma RegisterTellsBurst(r: bits, poly: bits, u: bits, v: bits)
    requires |r| == |poly| > 0 && poly[|poly| - 1]
    requires |u| == |v| <= |r| && FeedBits(r, poly, u) == FeedBits(r, poly, v)
    ensures u == v
  {
    var k := |u|;
    var e, f := u + Zeros(|r| - k), v + Zeros(|r| - k);
    assert e[..k] == u && f[..k] == v;
    FeedIsXorThenSteps(r, poly, e, k);
    FeedIsXorThenSteps(r, poly, f, k);
    StepsAreInjective(Xor(r, e), Xor(r, f), poly, k);
    assert e == Xor(r, Xor(r, e)) && f == Xor(r, Xor(r, f));
  }

  /** Octet streams of the same shape flatten to the same bits only when they are the same. */
  lemma {:induction false} FlattenIsInjective(u: seq<bits>, v: seq<bits>)
    requires |u| == |v| && (forall i :: 0 <= i < |u| ==> |u[i]| == |v[i]|) && Flatten(u) == Flatten(v)
    ensures u == v
  {
    if u != [] {
      var k := |u[0]|;
      assert Flatten(u)[..k] == u[0] && Flatten(v)[..k] == v[0];
      assert Flatten(u)[k..] == Flatten(u[1..]) && Flatten(v)[k..] == Flatten(v[1..]);
      FlattenIsInjective(u[1..], v[1..]);
    }
  }

  lemma {:induction false} FlattenLength(os: seq<bits>)
    requires forall i :: 0 <= i < |os| ==> |os[i]| == 8
    ensures |Flatten(os)| == 8 * |os|
  {
    if os != [] {
      FlattenLength(os[1..]);
    }
  }

  lemma OctetsAreInjective(u: seq<byte>, v: seq<byte>)
    requires |u| == |v| && Octets(u) == Octets(v)
    ensures u == v
  {
    forall i | 0 <= i < |u|
      ensures u[i] == v[i]
    {
      Pow2Values();
      assert Octets(u)[i] == Octets(v)[i];
      ValueOfBits(u[i], 8);
      ValueOfBits(v[i], 8);
    }
  }

  lemma ComplementIsInjective(a: bits, b: bits)
    requires |a| == |b| && ValueOf(Not(a)) == ValueOf(Not(b))
    ensures a == b
  {
    BitsOfValue(Not(a));
    BitsOfValue(Not(b));
    assert a == Not(Not(a)) && b == Not(Not(b));
  }

  /** Any corruption confined to as many consecutive bytes as the CRC is wide changes the CRC. */
  lemma BurstIsDetected(poly: nat, width: nat, before: seq<byte>, u: seq<byte>, v: seq<byte>, after: seq<byte>)
    requires width > 0 && Pow2(width - 1) <= poly < Pow2(width)
    requires |u| == |v| && 8 * |u| <= width && u != v
    ensures Crc(poly, width, before + u + after) != Crc(poly, width, before + v + after)
  {
    TopBit(poly, width);
    var a, b, c, d := Octets(before), Octets(u), Octets(v), Octets(after);
    assert Octets(before + u + after) == a + b + d && Octets(before + v + after) == a + c + d;
    if b == c {
      OctetsAreInjective(u, v);
    } else {
      BurstOfOctetsIsDetected(Ones(width), BitsOf(poly, width), a, b, c, d);
    }
  }

  lemma BurstOfOctetsIsDetected(r: bits, g: bits, a: seq<bits>, b: seq<bits>, c: seq<bits>, d: seq<bits>)
    requires |r| == |g| > 0 && g[|g| - 1] && |b| == |c| && 8 * |b| <= |r| && b != c
    requires forall i :: 0 <= i < |b| ==> |b[i]| == |c[i]| == 8
    ensures Digest(r, g, Flatten(a + b + d)) != Digest(r, g, Flatten(a + c + d))
  {
    DigestOfThree(r, g, a, b, d);
    DigestOfThree(r, g, a, c, d);
    FlattenLength(b);
    FlattenLength(c);
    if Flatten(b) == Flatten(c) {
      FlattenIsInjective(b, c);
    } else {
      BurstBitsAreDetected(FeedBits(r, g, Flatten(a)), g, Flatten(b), Flatten(c), Flatten(d));
    }
  }

  lemma DigestOfThree(r: bits, g: bits, a: seq<bits>, b: seq<bits>, c: seq<bits>)
    requires |r| == |g| > 0
    ensures Digest(r, g, Flatten(a + b + c))
            == Digest(FeedBits(FeedBits(r, g, Flatten(a)), g, Flatten(b)), g, Flatten(c))
  {
    FlattenConcat(a + b, c);
    FlattenConcat(a, b);
    FeedConcat(r, g, Flatten(a) + Flatten(b), Flatten(c));
    FeedConcat(r, g, Flatten(a), Flatten(b));
  }

  lemma BurstBitsAreDetected(r: bits, g: bits, u: bits, v: bits, after: bits)
    requires |r| == |g| > 0 && g[|g| - 1] && |u| == |v| <= |r| && u != v
    ensures Digest(FeedBits(r, g, u), g, after) != Digest(FeedBits(r, g, v), g, after)
  {
    var ru, rv := FeedBits(r, g, u), FeedBits(r, g, v);
    if Digest(ru, g, after) == Digest(rv, g, after) {
      ComplementIsInjective(FeedBits(ru, g, after), FeedBits(rv, g, after));
      FeedIsInjective(ru, rv, g, after);
      RegisterTellsBurst(r, g, u, v);
    }
  }

  /** The three built-in generators meet the premise of `BurstIsDetected`. */
  lemma BuiltinsDetectBursts(before: seq<byte>, u: seq<byte>, v: seq<byte>, after: seq<byte>)
    requires |u| == |v| && u != v
    ensures |u| <= 2 ==> Crc16Ccitt(before + u + after) != Crc16Ccitt(before + v + after)
    ensures |u| <= 4 ==> Crc32(before + u + after) != Crc32(before + v + after)
    ensures |u| <= 4 ==> Crc32c(before + u + after) != Crc32c(before + v + after)
  {
    Pow2Values();
    if |u| <= 2 {
      BurstIsDetected(CRC16_CCITT_POLYNOMIAL, 16, before, u, v, after);
    }
    if |u| <= 4 {
      BurstIsDetected(CRC32_POLYNOMIAL, 32, before, u, v, after);
      BurstIsDetected(CRC32C_POLYNOMIAL, 32, before, u, v, after);
    }
  }

  // ----- The registry of built-in algorithms -----

  function Crc16Ccitt(data: seq<byte>): nat {
    Crc(CRC16_CCITT_POLYNOMIAL, 16, data)
  }

  function Crc32(data: seq<byte>): nat {
    Crc(CRC32_POLYNOMIAL, 32, data)
  }

  function Crc32c(data: seq<byte>): nat {
    Crc(CRC32C_POLYNOMIAL, 32, data)
  }

  function Xor8(data: seq<byte>): (v: nat) {
    if data == [] then 0 else ValueOf(Xor(BitsOf(Xor8(data[..|data| - 1]), 8), BitsOf(data[|data| - 1], 8)))
  }

  function Total(data: seq<byte>): (v: nat) {
    if data == [] then 0 else Total(data[..|data| - 1]) + data[|data| - 1]
  }

  function Sum16(data: seq<byte>): nat {
    Total(data) % 0x1_0000
  }

  /** The checksum under a built-in name; unknown names have none. */
  function Compute(algorithm: string, data: seq<byte>): (r: Option<nat>) {
    match algorithm
    case "xor8" => Some(Xor8(data))
    case "sum16" => Some(Sum16(data))
    case "crc16_ccitt" => Some(Crc16Ccitt(data))
    case "crc32" => Some(Crc32(data))
    case "crc32c" => Some(Crc32c(data))
    case _ => None
  }

  method ComputeXor8(data: seq<byte>) returns (digest: nat)
    ensures digest == Xor8(data)
  {
    digest := 0;
    for i := 0 to |data|
      invariant digest == Xor8(data[..i])
    {
      assert data[..i + 1][..i] == data[..i];
      digest := ValueOf(Xor(BitsOf(digest, 8), BitsOf(data[i], 8)));
    }
    assert data[..|data|] == data;
  }

  method ComputeSum16(data: seq<byte>) returns (digest: nat)
    ensures digest == Sum16(data)
  {
    var sum: nat := 0;
    for i := 0 to |data|
      invariant sum == Total(data[..i])
    {
      assert data[..i + 1][..i] == data[..i];
      sum := sum + data[i];
    }
    assert data[..|data|] == data;
    digest := sum % 0x1_0000;
  }

  /** The checksum under a built-in name, computed by its loop. */
  method ComputeChecksum(algorithm: string, data: seq<byte>) returns (r: Option<nat>)
    ensures r == Compute(algorithm, data)
  {
    var digest: nat;
    match algorithm {
      case "xor8" => digest := ComputeXor8(data);
      case "sum16" => digest := ComputeSum16(data);
      case "crc16_ccitt" => digest := ComputeCrc(CRC16_CCITT_POLYNOMIAL, 16, data);
      case "crc32" => digest := ComputeCrc(CRC32_POLYNOMIAL, 32, data);
      case "crc32c" => digest := ComputeCrc(CRC32C_POLYNOMIAL, 32, data);
      case _ => return None;
    }
    return Some(digest);
  }

  // ----- The plain checksums tell single bytes apart -----

  lemma Xor8Step(data: seq<byte>, b: byte, w: nat)
    requires w == 8
    ensures BitsOf(Xor8(data + [b]), w) == Xor(BitsOf(Xor8(data), w), BitsOf(b, w))
  {
    assert (data + [b])[..|data|] == data;
    BitsOfValue(Xor(BitsOf(Xor8(data), w), BitsOf(b, w)));
  }

  lemma XorRegroups(a: bits, b: bits, c: bits)
    requires |a| == |b| == |c|
    ensures Xor(Xor(a, b), c) == Xor(a, Xor(b, c))
  {
  }

  /** One more byte behind the second part. */
  lemma Xor8OneMore(x: seq<byte>, y: seq<byte>, b: byte, w: nat)
    requires w == 8 && BitsOf(Xor8(x + y), w) == Xor(BitsOf(Xor8(x), w), BitsOf(Xor8(y), w))
    ensures BitsOf(Xor8(x + (y + [b])), w) == Xor(BitsOf(Xor8(x), w), BitsOf(Xor8(y + [b]), w))
  {
    Xor8Step(x + y, b, w);
    Xor8Step(y, b, w);
    assert x + (y + [b]) == x + y + [b];
    XorRegroups(BitsOf(Xor8(x), w), BitsOf(Xor8(y), w), BitsOf(b, w));
  }

  lemma XorZeros(a: bits)
    ensures Xor(a, Zeros(|a|)) == a
  {
  }

  lemma {:induction false} Xor8InParts(x: seq<byte>, y: seq<byte>, w: nat)
    requires w == 8
    ensures BitsOf(Xor8(x + y), w) == Xor(BitsOf(Xor8(x), w), BitsOf(Xor8(y), w))
    decreases |y|
  {
    if y == [] {
      assert x + y == x;
      BitsOfZero(w);
      XorZeros(BitsOf(Xor8(x), w));
    } else {
      var front := y[..|y| - 1];
      Xor8InParts(x, front, w);
      Xor8OneMore(x, front, y[|y| - 1], w);
      assert y == front + [y[|y| - 1]];
    }
  }

  lemma {:induction false} TotalInParts(x: seq<byte>, y: seq<byte>)
    ensures Total(x + y) == Total(x) + Total(y)
    decreases |y|
  {
    if y == [] {
      assert x + y == x;
    } else {
      assert (x + y)[..|x + y| - 1] == x + y[..|y| - 1];
      TotalInParts(x, y[..|y| - 1]);
    }
  }

  lemma XorCancels(a: bits, u: bits, v: bits, b: bits)
    requires |a| == |u| == |v| == |b| && Xor(Xor(a, u), b) == Xor(Xor(a, v), b)
    ensures u == v
  {
    forall i | 0 <= i < |u|
      ensures u[i] == v[i]
    {
      assert Xor(Xor(a, u), b)[i] == Xor(Xor(a, v), b)[i];
    }
  }

  lemma Xor8OfOne(before: seq<byte>, u: byte, after: seq<byte>, w: nat)
    requires w == 8
    ensures BitsOf(Xor8(before + [u] + after), w) == Xor(Xor(BitsOf(Xor8(before), w), BitsOf(u, w)), BitsOf(Xor8(after), w))
  {
    Xor8InParts(before + [u], after, w);
    Xor8Step(before, u, w);
  }

  lemma Xor8OneByte(before: seq<byte>, u: byte, v: byte, after: seq<byte>, w: nat)
    requires u != v && w == 8
    ensures Xor8(before + [u] + after) != Xor8(before + [v] + after)
  {
    if Xor8(before + [u] + after) == Xor8(before + [v] + after) {
      Xor8OfOne(before, u, after, w);
      Xor8OfOne(before, v, after, w);
      XorCancels(BitsOf(Xor8(before), w), BitsOf(u, w), BitsOf(v, w), BitsOf(Xor8(after), w));
      Pow2Values();
      ValueOfBits(u, w);
      ValueOfBits(v, w);
    }
  }

  /** Of a single byte the exclusive or is the byte. */
  lemma Xor8OfSingle(b: byte, w: nat)
    requires w == 8
    ensures Xor8([b]) == b
  {
    Xor8Step([], b, w);
    assert [] + [b] == [b];
    BitsOfZero(w);
    assert Xor(Zeros(w), BitsOf(b, w)) == BitsOf(b, w);
    Pow2Values();
    ValueOfBits(b, w);
    assert [b][..0] == [];
    ValueOfBits(Xor8([b]), w);
  }

  /** Changing one byte changes both checksums. */
  lemma PlainChecksumsDetectOneByte(before: seq<byte>, u: byte, v: byte, after: seq<byte>)
    requires u != v
    ensures Xor8(before + [u] + after) != Xor8(before + [v] + after)
    ensures Sum16(before + [u] + after) != Sum16(before + [v] + after)
  {
    Xor8OneByte(before, u, v, after, 8);
    TotalOfOne(before, u, after);
    TotalOfOne(before, v, after);
    RemaindersDiffer(Total(before) + Total(after), u, v);
  }

  lemma TotalOfOne(before: seq<byte>, u: byte, after: seq<byte>)
    ensures Total(before + [u] + after) == Total(before) + Total(after) + u
  {
    TotalInParts(before + [u], after);
    TotalInParts(before, [u]);
    assert [u][..0] == [];
  }

  lemma RemaindersDiffer(n: nat, u: byte, v: byte)
    requires u != v
    ensures (n + u) % 0x1_0000 != (n + v) % 0x1_0000
  {
  }
}
