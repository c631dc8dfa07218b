/** UTF-8 as sections 3 and 4 of RFC 3629 define it, and the validator of the runtime. */
module Utf8 {
  import opened Prelude
  import opened Bytes

  /** A Unicode scalar value: a code point that is not a surrogate. */
  type Scalar = c: int | 0 <= c < 0xD800 || 0xE000 <= c < 0x110000

  /** The encoding table of section 3 of RFC 3629. */
  function EncodeScalar(c: Scalar): (s: seq<byte>)
    ensures 1 <= |s| <= 4
  {
    if c < 0x80 then [c]
    else if c < 0x800 then [0xC0 + c / 64, 0x80 + c % 64]
    else if c < 0x10000 then [0xE0 + c / 4096, 0x80 + c / 64 % 64, 0x80 + c % 64]
    else [0xF0 + c / 262144, 0x80 + c / 4096 % 64, 0x80 + c / 64 % 64, 0x80 + c % 64]
  }

  function Encode(cs: seq<Scalar>): (s: seq<byte>)
  {
    if cs == [] then [] else EncodeScalar(cs[0]) + Encode(cs[1..])
  }

  /** Number of continuation bytes a lead byte announces; the masks 0x80, 0xE0, 0xF0 and 0xF8
      select high bits, which is division by 128, 32, 16 and 8. */
  function Continuations(lead: byte): (n: Option<nat>)
  {
    if lead / 128 == 0 then Some(0)
    else if lead / 32 == 6 then (if lead % 32 == 0 then None else Some(1))
    else if lead / 16 == 14 then Some(2)
    else if lead / 8 == 30 then Some(3)
    else None
  }

  function LeadPayload(lead: byte, n: nat): (v: nat)
  {
    if n == 0 then lead else if n == 1 then lead % 32 else if n == 2 then lead % 16 else lead % 8
  }

  /** Accumulates `n` continuation bytes into a code point, six bits each. */
  function Accumulate(s: seq<byte>, from: nat, n: nat, start: nat): (r: Option<nat>)
    requires from + n <= |s|
    ensures r.Some? ==> forall k :: from <= k < from + n ==> s[k] / 64 == 2
  {
    if n == 0 then Some(start)
    else
      match Accumulate(s, from, n - 1, start)
      case None => None
      case Some(v) => if s[from + n - 1] / 64 != 2 then None else Some(v * 64 + s[from + n - 1] % 64)
  }

  predicate InRange(c: nat, n: nat) {
    && !(n == 1 && c < 0x80)
    && !(n == 2 && c < 0x800)
    && !(n == 3 && c < 0x10000)
    && c <= 0x10FFFF
    && !(0xD800 <= c <= 0xDFFF)
  }

  /** The scalar value at the front of `s` and the number of bytes it takes. */
  function DecodeFront(s: seq<byte>): (r: Option<(Scalar, nat)>)
    ensures r.Some? ==> 0 < r.value.1 <= |s|
  {
    if s == [] then None
    else
      match Continuations(s[0])
      case None => None
      case Some(n) =>
        if n >= |s| then None
        else
          match Accumulate(s, 1, n, LeadPayload(s[0], n))
          case None => None
          case Some(c) => if InRange(c, n) then Some((c, n + 1)) else None
  }

  function Decode(s: seq<byte>): (r: Option<seq<Scalar>>)
    decreases |s|
  {
    if s == [] then Some([])
    else
      match DecodeFront(s)
      case None => None
      case Some((c, n)) =>
        match Decode(s[n..])
        case None => None
        case Some(cs) => Some([c] + cs)
  }

  lemma AccumulateUnfolds(s: seq<byte>, n: nat, start: nat)
    requires n <= 3 && 1 + n <= |s|
    ensures n == 0 ==> Accumulate(s, 1, n, start) == Some(start)
    ensures n == 1 ==> Accumulate(s, 1, n, start)
                       == if s[1] / 64 == 2 then Some(start * 64 + s[1] % 64) else None
    ensures n == 2 ==> Accumulate(s, 1, n, start)
                       == if s[1] / 64 == 2 && s[2] / 64 == 2
                          then Some((start * 64 + s[1] % 64) * 64 + s[2] % 64) else None
    ensures n == 3 ==> Accumulate(s, 1, n, start)
                       == if s[1] / 64 == 2 && s[2] / 64 == 2 && s[3] / 64 == 2
                          then Some(((start * 64 + s[1] % 64) * 64 + s[2] % 64) * 64 + s[3] % 64) else None
  {
    assert Accumulate(s, 1, 0, start) == Some(start);
    if n >= 1 { assert Accumulate(s, 1, 1, start) == if s[1] / 64 == 2 then Some(start * 64 + s[1] % 64) else None; }
    if n >= 2 {
      assert Accumulate(s, 1, 2, start) == match Accumulate(s, 1, 1, start)
        case None => None
        case Some(v) => if s[2] / 64 != 2 then None else Some(v * 64 + s[2] % 64);
    }
  }

  /** The base-64 digits of a code point put it together again, and are the only ones that do. */
  lemma Digits(c: nat)
    ensures c == c / 64 * 64 + c % 64
    ensures c / 64 == c / 4096 * 64 + c / 64 % 64
    ensures c / 4096 == c / 262144 * 64 + c / 4096 % 64
  {
    assert c / 64 / 64 == c / 4096;
    assert c / 4096 / 64 == c / 262144;
  }

  lemma OnlyDigits(p: nat, x: nat, y: nat, z: nat)
    requires x < 64 && y < 64 && z < 64
    ensures var c := p * 64 + z; c / 64 == p && c % 64 == z
    ensures var c := (p * 64 + y) * 64 + z; c / 4096 == p && c / 64 % 64 == y && c % 64 == z
    ensures var c := ((p * 64 + x) * 64 + y) * 64 + z;
            c / 262144 == p && c / 4096 % 64 == x && c / 64 % 64 == y && c % 64 == z
  {
  }

  lemma LeadOf(p: nat, n: nat)
    requires n == 1 ==> 0 < p < 32
    requires n == 2 ==> p < 16
    requires n == 3 ==> p < 8
    ensures n == 1 ==> Continuations(0xC0 + p) == Some(1) && LeadPayload(0xC0 + p, 1) == p
    ensures n == 2 ==> Continuations(0xE0 + p) == Some(2) && LeadPayload(0xE0 + p, 2) == p
    ensures n == 3 ==> Continuations(0xF0 + p) == Some(3) && LeadPayload(0xF0 + p, 3) == p
  {
  }

  /** A lead byte is its tag plus its payload. */
  lemma LeadIs(lead: byte)
    ensures match Continuations(lead)
            case None => true
            case Some(n) =>
              && n <= 3
              && (n == 0 ==> lead < 0x80)
              && (n == 1 ==> lead == 0xC0 + lead % 32 && lead % 32 != 0)
              && (n == 2 ==> lead == 0xE0 + lead % 16)
              && (n == 3 ==> lead == 0xF0 + lead % 8)
  {
  }

  lemma ContinuationOf(d: nat)
    requires d < 64
    ensures (0x80 + d) / 64 == 2 && (0x80 + d) % 64 == d
  {
  }

  lemma FrontOfTwo(p: nat, z: nat, s: seq<byte>)
    requires 0 < p < 32 && z < 64 && InRange(p * 64 + z, 1)
    requires |s| >= 2 && s[..2] == [0xC0 + p, 0x80 + z]
    ensures DecodeFront(s) == Some((p * 64 + z, 2))
  {
    LeadOf(p, 1);
    ContinuationOf(z);
    AccumulateUnfolds(s, 1, p);
    assert s[0] == s[..2][0] && s[1] == s[..2][1];
  }

  lemma FrontOfThree(p: nat, y: nat, z: nat, s: seq<byte>)
    requires p < 16 && y < 64 && z < 64 && InRange((p * 64 + y) * 64 + z, 2)
    requires |s| >= 3 && s[..3] == [0xE0 + p, 0x80 + y, 0x80 + z]
    ensures DecodeFront(s) == Some(((p * 64 + y) * 64 + z, 3))
  {
    LeadOf(p, 2);
    ContinuationOf(y);
    ContinuationOf(z);
    AccumulateUnfolds(s, 2, p);
    assert s[0] == s[..3][0] && s[1] == s[..3][1] && s[2] == s[..3][2];
  }

  lemma FrontOfFour(p: nat, x: nat, y: nat, z: nat, s: seq<byte>)
    requires p < 8 && x < 64 && y < 64 && z < 64 && InRange(((p * 64 + x) * 64 + y) * 64 + z, 3)
    requires |s| >= 4 && s[..4] == [0xF0 + p, 0x80 + x, 0x80 + y, 0x80 + z]
    ensures DecodeFront(s) == Some((((p * 64 + x) * 64 + y) * 64 + z, 4))
  {
    LeadOf(p, 3);
    ContinuationOf(x);
    ContinuationOf(y);
    ContinuationOf(z);
    AccumulateUnfolds(s, 3, p);
    assert s[0] == s[..4][0] && s[1] == s[..4][1] && s[2] == s[..4][2] && s[3] == s[..4][3];
  }

  /** The front of an encoding decodes to the scalar it encodes, whatever follows. */
  lemma DecodeFrontOfEncoded(c: Scalar, rest: seq<byte>)
    ensures DecodeFront(EncodeScalar(c) + rest) == Some((c, |EncodeScalar(c)|))
  {
    var e := EncodeScalar(c);
    var s := e + rest;
    assert s[..|e|] == e;
    Digits(c);
    if c < 0x80 {
      assert s[0] == c && Continuations(s[0]) == Some(0) && Accumulate(s, 1, 0, c) == Some(c);
    } else if c < 0x800 {
      FrontOfTwo(c / 64, c % 64, s);
    } else if c < 0x10000 {
      FrontOfThree(c / 4096, c / 64 % 64, c % 64, s);
    } else {
      FrontOfFour(c / 262144, c / 4096 % 64, c / 64 % 64, c % 64, s);
    }
  }

  lemma EncodeOfDigits(p: nat, x: nat, y: nat, z: nat)
    requires x < 64 && y < 64 && z < 64
    ensures 0 < p < 32 && InRange(p * 64 + z, 1) ==> EncodeScalar(p * 64 + z) == [0xC0 + p, 0x80 + z]
    ensures p < 16 && InRange((p * 64 + y) * 64 + z, 2)
            ==> EncodeScalar((p * 64 + y) * 64 + z) == [0xE0 + p, 0x80 + y, 0x80 + z]
    ensures p < 8 && InRange(((p * 64 + x) * 64 + y) * 64 + z, 3)
            ==> EncodeScalar(((p * 64 + x) * 64 + y) * 64 + z) == [0xF0 + p, 0x80 + x, 0x80 + y, 0x80 + z]
  {
    OnlyDigits(p, x, y, z);
  }

  lemma ContinuationIs(b: byte)
    requires b / 64 == 2
    ensures b == 0x80 + b % 64
  {
  }

  /** What the front decodes to, encodes to exactly the bytes it took. */
  lemma EncodeOfDecodedFront(s: seq<byte>)
    requires DecodeFront(s).Some?
    ensures EncodeScalar(DecodeFront(s).value.0) == s[..DecodeFront(s).value.1]
  {
    var n := Continuations(s[0]).value;
    var p := LeadPayload(s[0], n);
    LeadIs(s[0]);
    AccumulateUnfolds(s, n, p);
    if n == 0 {
      assert DecodeFront(s) == Some((s[0], 1));
    } else if n == 1 {
      TwoBack(s, p);
    } else if n == 2 {
      ThreeBack(s, p);
    } else {
      FourBack(s, p);
    }
  }

  lemma TwoBack(s: seq<byte>, p: nat)
    requires |s| > 1 && s[0] == 0xC0 + p && 0 < p < 32 && s[1] / 64 == 2 && InRange(p * 64 + s[1] % 64, 1)
    ensures EncodeScalar(p * 64 + s[1] % 64) == s[..2]
  {
    ContinuationIs(s[1]);
    EncodeOfDigits(p, 0, 0, s[1] % 64);
  }

  lemma ThreeBack(s: seq<byte>, p: nat)
    requires |s| > 2 && s[0] == 0xE0 + p && p < 16 && s[1] / 64 == 2 && s[2] / 64 == 2
    requires InRange((p * 64 + s[1] % 64) * 64 + s[2] % 64, 2)
    ensures EncodeScalar((p * 64 + s[1] % 64) * 64 + s[2] % 64) == s[..3]
  {
    ContinuationIs(s[1]);
    ContinuationIs(s[2]);
    EncodeOfDigits(p, 0, s[1] % 64, s[2] % 64);
  }

  lemma FourBack(s: seq<byte>, p: nat)
    requires |s| > 3 && s[0] == 0xF0 + p && p < 8 && s[1] / 64 == 2 && s[2] / 64 == 2 && s[3] / 64 == 2
    requires InRange(((p * 64 + s[1] % 64) * 64 + s[2] % 64) * 64 + s[3] % 64, 3)
    ensures EncodeScalar(((p * 64 + s[1] % 64) * 64 + s[2] % 64) * 64 + s[3] % 64) == s[..4]
  {
    ContinuationIs(s[1]);
    ContinuationIs(s[2]);
    ContinuationIs(s[3]);
    EncodeOfDigits(p, s[1] % 64, s[2] % 64, s[3] % 64);
  }

  lemma {:induction false} DecodeEncoded(cs: seq<Scalar>)
    ensures Decode(Encode(cs)) == Some(cs)
  {
    if cs != [] {
      DecodeFrontOfEncoded(cs[0], Encode(cs[1..]));
      DecodeEncoded(cs[1..]);
      assert Encode(cs)[|EncodeScalar(cs[0])|..] == Encode(cs[1..]);
      assert cs == [cs[0]] + cs[1..];
    }
  }

  lemma {:induction false} EncodeDecoded(s: seq<byte>)
    requires Decode(s).Some?
    ensures Encode(Decode(s).value) == s
    decreases |s|
  {
    if s != [] {
      var (c, n) := DecodeFront(s).value;
      EncodeOfDecodedFront(s);
      EncodeDecoded(s[n..]);
      var cs := Decode(s[n..]).value;
      assert Encode([c] + cs) == EncodeScalar(c) + Encode(cs);
      assert s == s[..n] + s[n..];
    }
  }

  ghost predicate IsEncoding(s: seq<byte>) {
    exists cs: seq<Scalar> :: Encode(cs) == s
  }

  /** Decoding succeeds on exactly the encodings of scalar sequences. */
  lemma DecodesExactlyEncodings(s: seq<byte>)
    ensures Decode(s).Some? <==> IsEncoding(s)
  {
    if Decode(s).Some? {
      EncodeDecoded(s);
    }
    if IsEncoding(s) {
      var cs: seq<Scalar> :| Encode(cs) == s;
      DecodeEncoded(cs);
    }
  }

  /** A byte string is the encoding of at most one scalar sequence. */
  lemma EncodingIsUnique(a: seq<Scalar>, b: seq<Scalar>)
    requires Encode(a) == Encode(b)
    ensures a == b
  {
    DecodeEncoded(a);
    DecodeEncoded(b);
  }

  /** A complete lead and its continuations decide whether decoding goes on behind them. */
  lemma FrontDecides(s: seq<byte>, n: nat, c: nat)
    requires s != [] && Continuations(s[0]) == Some(n) && n < |s|
    requires Accumulate(s, 1, n, LeadPayload(s[0], n)) == Some(c)
    ensures Decode(s).Some? <==> InRange(c, n) && Decode(s[n + 1..]).Some?
  {
    if InRange(c, n) {
      assert DecodeFront(s) == Some((c, n + 1));
    }
  }

  /** The validator accepts a byte string exactly when it is the encoding of some scalar sequence. */
  method IsValidUtf8(bytes: seq<byte>) returns (valid: bool)
    ensures valid <==> IsEncoding(bytes)
  {
    DecodesExactlyEncodings(bytes);
    var index := 0;
    while index < |bytes|
      invariant 0 <= index <= |bytes|
      invariant Decode(bytes).Some? <==> Decode(bytes[index..]).Some?
    {
      ghost var rest := bytes[index..];
      var lead := bytes[index];
      var continuations := Continuations(lead);
      if continuations.None? {
        return false;
      }
      var continuationCount := continuations.value;
      if index + continuationCount >= |bytes| {
        return false;
      }
      var codePoint: nat := LeadPayload(lead, continuationCount);
      ghost var payload := codePoint;
      var continuation := 0;
      while continuation < continuationCount
        invariant 0 <= continuation <= continuationCount
        invariant Accumulate(rest, 1, continuation, payload) == Some(codePoint)
      {
        var next := bytes[index + continuation + 1];
        assert next == rest[1 + continuation];
        if next / 64 != 2 {
          FailsFromThere(rest, 1, continuation + 1, continuationCount, payload);
          return false;
        }
        codePoint := codePoint * 64 + next % 64;
        continuation := continuation + 1;
      }
      FrontDecides(rest, continuationCount, codePoint);
      if !InRange(codePoint, continuationCount) {
        return false;
      }
      index := index + continuationCount + 1;
      assert rest[continuationCount + 1..] == bytes[index..];
    }
    return true;
  }

  lemma {:induction false} FailsFromThere(s: seq<byte>, from: nat, k: nat, n: nat, start: nat)
    requires k <= n && from + n <= |s| && Accumulate(s, from, k, start).None?
    ensures Accumulate(s, from, n, start).None?
  {
    if k < n {
      FailsFromThere(s, from, k, n - 1, start);
    }
  }
}
