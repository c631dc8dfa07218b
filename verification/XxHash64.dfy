/** XXH64: the digest of a whole input, and the state that takes the input in pieces. */
module XxHash64 {
  import opened Prelude
  import opened Bytes
  import opened Words

  const PRIME1: word := 11400714785074694791
  const PRIME2: word := 14029467366897019727
  const PRIME3: word := 1609587929392839161
  const PRIME4: word := 9650029242287828579
  const PRIME5: word := 2870177450012600261

  const STRIPE: nat := 32

  lemma LaneFits(s: seq<byte>)
    requires |s| == 8 || |s| == 4
    ensures LittleValue(s) < LIMIT
  {
    assert Pow256(4) == 0x1_0000_0000;
    assert Pow256(8) == LIMIT;
  }

  /** A little-endian lane of eight or four bytes. */
  function Lane(s: seq<byte>): (w: word)
    requires |s| == 8 || |s| == 4
  {
    LaneFits(s);
    LittleValue(s)
  }

  function Round(accumulator: word, lane: word): (w: word) {
    Mul(RotateLeft(Add(accumulator, Mul(lane, PRIME2)), 31), PRIME1)
  }

  function MergeRound(accumulator: word, value: word): (w: word) {
    Add(Mul(XorWords(accumulator, Round(0, value)), PRIME1), PRIME4)
  }

  function Avalanche(hash: word): (w: word) {
    var a := Mul(XorWords(hash, ShiftDown(hash, 33)), PRIME2);
    var b := Mul(XorWords(a, ShiftDown(a, 29)), PRIME3);
    XorWords(b, ShiftDown(b, 32))
  }

  // ----- The digest of a whole input -----

  /** The four accumulators. */
  datatype Accumulators = Accumulators(v1: word, v2: word, v3: word, v4: word)

  /** Step 1: the accumulators before any input. */
  function Start(seed: word): Accumulators {
    Accumulators(Add(Add(seed, PRIME1), PRIME2), Add(seed, PRIME2), seed, Add(seed, LIMIT - PRIME1))
  }

  /** Step 2, one stripe: each accumulator takes its lane. */
  function Consume(a: Accumulators, stripe: seq<byte>): Accumulators
    requires |stripe| == STRIPE
  {
    Accumulators(Round(a.v1, Lane(stripe[0..8])), Round(a.v2, Lane(stripe[8..16])),
                 Round(a.v3, Lane(stripe[16..24])), Round(a.v4, Lane(stripe[24..32])))
  }

  /** Step 2: all whole stripes of the input in order. */
  function ConsumeAll(a: Accumulators, data: seq<byte>): Accumulators
    decreases |data|
  {
    if |data| < STRIPE then a else ConsumeAll(Consume(a, data[..STRIPE]), data[STRIPE..])
  }

  /** Step 3: the accumulators merged into one. */
  function Converge(a: Accumulators): (w: word) {
    var sum := Add(Add(Add(RotateLeft(a.v1, 1), RotateLeft(a.v2, 7)), RotateLeft(a.v3, 12)), RotateLeft(a.v4, 18));
    MergeRound(MergeRound(MergeRound(MergeRound(sum, a.v1), a.v2), a.v3), a.v4)
  }

  function MixEight(hash: word, lane: seq<byte>): (w: word)
    requires |lane| == 8
  {
    Add(Mul(RotateLeft(XorWords(hash, Round(0, Lane(lane))), 27), PRIME1), PRIME4)
  }

  function MixFour(hash: word, lane: seq<byte>): (w: word)
    requires |lane| == 4
  {
    Add(Mul(RotateLeft(XorWords(hash, Mul(Lane(lane), PRIME1)), 23), PRIME2), PRIME3)
  }

  function MixOne(hash: word, lane: byte): (w: word) {
    Mul(RotateLeft(XorWords(hash, Mul(lane, PRIME5)), 11), PRIME1)
  }

  /** Step 5: the bytes behind the last whole stripe, eight, then four, then one at a time. */
  function ConsumeTail(hash: word, rest: seq<byte>): (w: word)
    decreases |rest|
  {
    if |rest| >= 8 then ConsumeTail(MixEight(hash, rest[..8]), rest[8..])
    else if |rest| >= 4 then ConsumeTail(MixFour(hash, rest[..4]), rest[4..])
    else if |rest| >= 1 then ConsumeTail(MixOne(hash, rest[0]), rest[1..])
    else hash
  }

  /** The bytes behind the last whole stripe. */
  function Tail(data: seq<byte>): (s: seq<byte>)
    ensures |s| < STRIPE && |s| <= |data|
  {
    if |data| < STRIPE then data else Tail(data[STRIPE..])
  }

  /** They are the end of the input, and whole stripes lie before them. */
  lemma {:induction false} TailEndsTheInput(data: seq<byte>)
    ensures Tail(data) == data[|data| - |Tail(data)|..] && (|data| - |Tail(data)|) % STRIPE == 0
    decreases |data|
  {
    if |data| >= STRIPE {
      TailEndsTheInput(data[STRIPE..]);
    }
  }

  /** Steps 1 to 6. */
  function Digest(seed: word, data: seq<byte>): (w: word) {
    var start := if |data| >= STRIPE then Converge(ConsumeAll(Start(seed), data)) else Add(seed, PRIME5);
    Avalanche(ConsumeTail(Add(start, Wrap(|data|)), Tail(data)))
  }

  // ----- Input in pieces -----

  /** Stripes of a joined input: those of the first part, then those of its tail with the second part. */
  lemma {:induction false} StripesInParts(a: Accumulators, x: seq<byte>, y: seq<byte>)
    ensures ConsumeAll(a, x + y) == ConsumeAll(ConsumeAll(a, x), Tail(x) + y)
    ensures Tail(x + y) == Tail(Tail(x) + y)
    decreases |x|
  {
    if |x| >= STRIPE {
      assert (x + y)[..STRIPE] == x[..STRIPE] && (x + y)[STRIPE..] == x[STRIPE..] + y;
      StripesInParts(Consume(a, x[..STRIPE]), x[STRIPE..], y);
    }
  }

  // ----- The state that takes the input in pieces -----

  /** What the state knows about the input so far. */
  ghost predicate Digested(start: Accumulators, data: seq<byte>, a: Accumulators, held: seq<byte>) {
    a == ConsumeAll(start, data) && held == Tail(data)
  }

  lemma NothingDigested(start: Accumulators)
    ensures Digested(start, [], start, [])
  {}

  lemma LengthsAdd(x: nat, y: nat)
    ensures Add(Wrap(x), Wrap(y)) == Wrap(x + y)
  {}

  /** The held bytes and the new ones make no stripe. */
  lemma DigestedShort(start: Accumulators, data: seq<byte>, a: Accumulators, held: seq<byte>, bytes: seq<byte>)
    requires Digested(start, data, a, held) && |held + bytes| < STRIPE
    ensures Digested(start, data + bytes, a, held + bytes)
  {
    StripesInParts(start, data, bytes);
  }

  /** The stripes of the held bytes and the new ones are consumed. */
  lemma DigestedMore(start: Accumulators, data: seq<byte>, a: Accumulators, held: seq<byte>, bytes: seq<byte>)
    requires Digested(start, data, a, held)
    ensures Digested(start, data + bytes, ConsumeAll(a, held + bytes), Tail(held + bytes))
  {
    StripesInParts(start, data, bytes);
  }

  /** Consuming the stripes of `x` from `a` ends like consuming those of `y` from `b`. */
  ghost predicate SameEnd(a: Accumulators, x: seq<byte>, b: Accumulators, y: seq<byte>) {
    ConsumeAll(a, x) == ConsumeAll(b, y) && Tail(x) == Tail(y)
  }

  lemma LongEnough(data: seq<byte>)
    requires |data| < LIMIT
    ensures Wrap(|data|) == |data|
  {}

  method Merge(a: Accumulators) returns (hash: word)
    ensures hash == Converge(a)
  {
    hash := Add(Add(Add(RotateLeft(a.v1, 1), RotateLeft(a.v2, 7)), RotateLeft(a.v3, 12)), RotateLeft(a.v4, 18));
    hash := MergeRound(hash, a.v1);
    hash := MergeRound(hash, a.v2);
    hash := MergeRound(hash, a.v3);
    hash := MergeRound(hash, a.v4);
  }

  method FinishEights(start: word, tail: seq<byte>) returns (hash: word, rest: seq<byte>)
    ensures |rest| < 8 && ConsumeTail(start, tail) == ConsumeTail(hash, rest)
  {
    hash, rest := start, tail;
    while |rest| >= 8
      invariant ConsumeTail(start, tail) == ConsumeTail(hash, rest)
    {
      hash, rest := MixEight(hash, rest[..8]), rest[8..];
    }
  }

  method FinishOnes(start: word, tail: seq<byte>) returns (hash: word)
    requires |tail| < 4
    ensures hash == ConsumeTail(start, tail)
  {
    hash := start;
    var rest := tail;
    while rest != []
      invariant |rest| < 4 && ConsumeTail(start, tail) == ConsumeTail(hash, rest)
      decreases |rest|
    {
      hash, rest := MixOne(hash, rest[0]), rest[1..];
    }
  }

  /** The bytes that no longer fill a stripe, eight, four and one at a time. */
  method FinishTail(start: word, tail: seq<byte>) returns (hash: word)
    ensures hash == ConsumeTail(start, tail)
  {
    var rest;
    hash, rest := FinishEights(start, tail);
    if |rest| >= 4 {
      hash, rest := MixFour(hash, rest[..4]), rest[4..];
    }
    hash := FinishOnes(hash, rest);
  }

  class XxHash64State {
    const seed: word
    var totalLength: word
    var v1: word
    var v2: word
    var v3: word
    var v4: word
    const buffer: array<byte>
    var bufferSize: nat
    /** All bytes taken so far. */
    ghost var data: seq<byte>

    ghost predicate Sized()
      reads this
    {
      buffer.Length == STRIPE && bufferSize < STRIPE
    }

    ghost function Lanes(): Accumulators
      reads this
    {
      Accumulators(v1, v2, v3, v4)
    }

    /** The buffer holds exactly the bytes behind the last whole stripe. */
    ghost predicate Valid()
      reads this, buffer
    {
      Sized() && Digested(Start(seed), data, Lanes(), buffer[..bufferSize]) && totalLength == Wrap(|data|)
    }

    constructor (seed: word)
      ensures Valid() && fresh(buffer) && this.seed == seed && data == []
    {
      this.seed := seed;
      totalLength := 0;
      v1, v2, v3, v4 := Add(Add(seed, PRIME1), PRIME2), Add(seed, PRIME2), seed, Add(seed, LIMIT - PRIME1);
      buffer := new byte[STRIPE](_ => 0);
      bufferSize := 0;
      data := [];
      new;
      NothingDigested(Start(seed));
    }

    /** Copies bytes into the buffer behind position `at`. */
    method CopyIn(at: nat, bytes: seq<byte>)
      requires buffer.Length == STRIPE && at + |bytes| <= STRIPE
      modifies buffer
      ensures buffer[..at + |bytes|] == old(buffer[..at]) + bytes
    {
      forall k | 0 <= k < |bytes| {
        buffer[at + k] := bytes[k];
      }
    }

    method ConsumeStripe(stripe: seq<byte>)
      requires |stripe| == STRIPE
      modifies this`v1, this`v2, this`v3, this`v4
      ensures Lanes() == Consume(old(Lanes()), stripe)
    {
      v1 := Round(v1, Lane(stripe[0..8]));
      v2 := Round(v2, Lane(stripe[8..16]));
      v3 := Round(v3, Lane(stripe[16..24]));
      v4 := Round(v4, Lane(stripe[24..32]));
    }

    /** Fills the buffer up to a whole stripe and consumes it. */
    method ConsumeHeld(bytes: seq<byte>) returns (taken: nat)
      requires Sized() && bufferSize + |bytes| >= STRIPE
      modifies this`v1, this`v2, this`v3, this`v4, this`bufferSize, buffer
      ensures bufferSize == 0 && taken <= |bytes|
      ensures SameEnd(old(Lanes()), old(buffer[..bufferSize]) + bytes, Lanes(), bytes[taken..])
    {
      taken := 0;
      if bufferSize == 0 {
        assert buffer[..0] + bytes == bytes[0..];
      } else {
        ghost var all := buffer[..bufferSize] + bytes;
        taken := STRIPE - bufferSize;
        CopyIn(bufferSize, bytes[..taken]);
        assert buffer[..STRIPE] == all[..STRIPE] && bytes[taken..] == all[STRIPE..];
        ConsumeStripe(buffer[..STRIPE]);
        bufferSize := 0;
      }
    }

    /** Consumes whole stripes straight from the input. */
    method ConsumeStripes(bytes: seq<byte>, start: nat) returns (taken: nat)
      requires start <= |bytes|
      modifies this`v1, this`v2, this`v3, this`v4
      ensures taken <= |bytes| < taken + STRIPE
      ensures SameEnd(old(Lanes()), bytes[start..], Lanes(), bytes[taken..])
    {
      taken := start;
      while |bytes| - taken >= STRIPE
        invariant taken <= |bytes|
        invariant SameEnd(old(Lanes()), bytes[start..], Lanes(), bytes[taken..])
      {
        assert bytes[taken..][..STRIPE] == bytes[taken..taken + STRIPE];
        assert bytes[taken..][STRIPE..] == bytes[taken + STRIPE..];
        ConsumeStripe(bytes[taken..taken + STRIPE]);
        taken := taken + STRIPE;
      }
    }

    method TakeStripes(bytes: seq<byte>)
      requires Sized() && bufferSize + |bytes| >= STRIPE
      modifies this`v1, this`v2, this`v3, this`v4, this`bufferSize, buffer
      ensures Sized()
      ensures SameEnd(old(Lanes()), old(buffer[..bufferSize]) + bytes, Lanes(), buffer[..bufferSize])
    {
      var filled := ConsumeHeld(bytes);
      var taken := ConsumeStripes(bytes, filled);
      if taken < |bytes| {
        CopyIn(0, bytes[taken..]);
        bufferSize := |bytes| - taken;
      }
      assert buffer[..bufferSize] == bytes[taken..];
    }

    method TakeBytes(bytes: seq<byte>)
      requires Sized() && Digested(Start(seed), data, Lanes(), buffer[..bufferSize])
      modifies this`v1, this`v2, this`v3, this`v4, this`bufferSize, buffer
      ensures Sized() && Digested(Start(seed), data + bytes, Lanes(), buffer[..bufferSize])
    {
      if bufferSize + |bytes| < STRIPE {
        DigestedShort(Start(seed), data, Lanes(), buffer[..bufferSize], bytes);
        CopyIn(bufferSize, bytes);
        bufferSize := bufferSize + |bytes|;
      } else {
        DigestedMore(Start(seed), data, Lanes(), buffer[..bufferSize], bytes);
        TakeStripes(bytes);
      }
    }

    /** Takes more input: afterwards the state is the one of the whole input so far. */
    method Update(bytes: seq<byte>)
      requires Valid()
      modifies this, buffer
      ensures Valid() && data == old(data) + bytes
    {
      if bytes == [] {
        assert data + bytes == data;
        return;
      }
      TakeBytes(bytes);
      LengthsAdd(|data|, |bytes|);
      totalLength := Add(totalLength, Wrap(|bytes|));
      data := data + bytes;
    }

    /** The digest of all input so far, however it was cut; the state stays as it is. */
    method Finish() returns (hash: word)
      requires Valid() && |data| < LIMIT
      ensures hash == Digest(seed, data)
    {
      LongEnough(data);
      if totalLength >= STRIPE {
        hash := Merge(Accumulators(v1, v2, v3, v4));
      } else {
        hash := Add(seed, PRIME5);
      }
      hash := FinishTail(Add(hash, totalLength), buffer[..bufferSize]);
      hash := Avalanche(hash);
    }
  }
}
