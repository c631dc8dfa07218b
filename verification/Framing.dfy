/** Length-prefixed frames: one frame, all the frames of a stream, and what chunking does to them. */
module Framing {
  import opened Prelude
  import opened Bytes

  /** The prefix width in bytes and the largest payload that is accepted. */
  datatype Options = Options(prefixWidth: nat, maxPayload: nat)

  /** A prefix takes up at least one byte; the Python and TypeScript classes admit one, two and four. */
  predicate Usable(o: Options) {
    o.prefixWidth > 0
  }

  datatype ReadResult = NeedMore | TooLarge | Frame(payload: seq<byte>, consumed: nat)

  /** The frame at the front of a buffer. */
  function TryReadFrame(buffer: seq<byte>, o: Options): (r: ReadResult)
    ensures r.Frame? ==> o.prefixWidth <= r.consumed <= |buffer| && r.consumed == o.prefixWidth + |r.payload|
  {
    if |buffer| < o.prefixWidth then NeedMore
    else
      var size := LittleValue(buffer[..o.prefixWidth]);
      if size > o.maxPayload then TooLarge
      else if |buffer| < o.prefixWidth + size then NeedMore
      else Frame(buffer[o.prefixWidth..o.prefixWidth + size], o.prefixWidth + size)
  }

  /** A payload behind its length, the length cut to the width of the prefix. */
  function Framed(payload: seq<byte>, o: Options): (s: seq<byte>)
    ensures |s| == o.prefixWidth + |payload|
  {
    LittleBytes(|payload| % Pow256(o.prefixWidth), o.prefixWidth) + payload
  }

  /** A frame as the encoder makes it; larger payloads than allowed are refused. */
  function EncodeFrame(payload: seq<byte>, o: Options): (r: Option<seq<byte>>) {
    if |payload| > o.maxPayload then None else Some(Framed(payload, o))
  }

  /** The prefix of a framed payload reads as the payload's length, less what does not fit. */
  lemma PrefixReads(payload: seq<byte>, o: Options, rest: seq<byte>)
    ensures LittleValue((Framed(payload, o) + rest)[..o.prefixWidth]) == |payload| % Pow256(o.prefixWidth)
  {
    LittleRoundTrip(|payload| % Pow256(o.prefixWidth), o.prefixWidth);
    assert (Framed(payload, o) + rest)[..o.prefixWidth] == LittleBytes(|payload| % Pow256(o.prefixWidth), o.prefixWidth);
  }

  lemma SmallRemainder(n: nat, m: nat)
    requires m > 0
    ensures n < m ==> n % m == n
    ensures n >= m ==> n % m < n
  {
  }

  /** An encoded frame reads back, whatever follows it, exactly when its length fits into the prefix. */
  lemma FrameReadsBack(payload: seq<byte>, o: Options, rest: seq<byte>)
    requires |payload| <= o.maxPayload
    ensures TryReadFrame(Framed(payload, o) + rest, o) == Frame(payload, |Framed(payload, o)|)
            <==> |payload| < Pow256(o.prefixWidth)
  {
    PrefixReads(payload, o, rest);
    var all := Framed(payload, o) + rest;
    SmallRemainder(|payload|, Pow256(o.prefixWidth));
    if |payload| < Pow256(o.prefixWidth) {
      assert all[o.prefixWidth..o.prefixWidth + |payload|] == payload;
    }
  }

  // ----- All the frames of a stream -----

  /** The frames a stream holds and the bytes they take up. */
  datatype Parsed = Frames(payloads: seq<seq<byte>>, consumed: nat) | Refused

  function Parse(stream: seq<byte>, o: Options): (r: Parsed)
    requires Usable(o)
    ensures r.Frames? ==> r.consumed <= |stream|
    decreases |stream|
  {
    match TryReadFrame(stream, o)
    case NeedMore => Frames([], 0)
    case TooLarge => Refused
    case Frame(payload, n) =>
      match Parse(stream[n..], o)
      case Refused => Refused
      case Frames(more, m) => Frames([payload] + more, n + m)
  }

  /** A frame that is complete stays the same when more bytes follow. */
  lemma ReadIsStable(a: seq<byte>, b: seq<byte>, o: Options)
    requires !TryReadFrame(a, o).NeedMore?
    ensures TryReadFrame(a + b, o) == TryReadFrame(a, o)
  {
    assert (a + b)[..o.prefixWidth] == a[..o.prefixWidth];
    if TryReadFrame(a, o).Frame? {
      var n := TryReadFrame(a, o).consumed;
      assert (a + b)[o.prefixWidth..n] == a[o.prefixWidth..n];
    }
  }

  /** The frames of a stream and what is left over. */
  function Then(frames: seq<seq<byte>>, consumed: nat, rest: Parsed): Parsed {
    match rest
    case Refused => Refused
    case Frames(more, m) => Frames(frames + more, consumed + m)
  }

  /** Parsing a stream in two parts gives the frames of the whole: those of the first part, then those
      of what the first part left over with the second part behind it. */
  lemma {:induction false} ParseInParts(a: seq<byte>, b: seq<byte>, o: Options)
    requires Usable(o) && Parse(a, o).Frames?
    ensures InParts(a, b, o)
    decreases |a|
  {
    match TryReadFrame(a, o)
    case NeedMore =>
      assert a[0..] == a;
      ThenNothing(Parse(a + b, o));
    case Frame(payload, n) =>
      ParseInParts(a[n..], b, o);
      OneMoreInParts(a, b, payload, n, o);
  }

  ghost predicate InParts(a: seq<byte>, b: seq<byte>, o: Options)
    requires Usable(o) && Parse(a, o).Frames?
  {
    Parse(a + b, o) == Then(Parse(a, o).payloads, Parse(a, o).consumed, Parse(a[Parse(a, o).consumed..] + b, o))
  }

  lemma OneMoreInParts(a: seq<byte>, b: seq<byte>, payload: seq<byte>, n: nat, o: Options)
    requires Usable(o) && TryReadFrame(a, o) == Frame(payload, n)
    requires Parse(a[n..], o).Frames? && InParts(a[n..], b, o)
    ensures Parse(a, o).Frames? && InParts(a, b, o)
  {
    ParseStep(a, b, payload, n, o);
    var inner := Parse(a[n..], o);
    assert a[n..][inner.consumed..] == a[n + inner.consumed..];
    ThenThen([payload], n, inner.payloads, inner.consumed, Parse(a[n + inner.consumed..] + b, o));
  }

  lemma ParseStep(a: seq<byte>, b: seq<byte>, payload: seq<byte>, n: nat, o: Options)
    requires Usable(o) && TryReadFrame(a, o) == Frame(payload, n)
    ensures Parse(a + b, o) == Then([payload], n, Parse(a[n..] + b, o))
  {
    ReadIsStable(a, b, o);
    assert (a + b)[n..] == a[n..] + b;
  }

  lemma ThenNothing(rest: Parsed)
    ensures Then([], 0, rest) == rest
  {
    if rest.Frames? {
      assert [] + rest.payloads == rest.payloads;
    }
  }

  lemma ThenThen(f: seq<seq<byte>>, n: nat, g: seq<seq<byte>>, m: nat, rest: Parsed)
    ensures Then(f, n, Then(g, m, rest)) == Then(f + g, n + m, rest)
  {
    if rest.Frames? {
      assert f + (g + rest.payloads) == f + g + rest.payloads;
    }
  }

  /** A stream that is refused stays refused. */
  lemma {:induction false} RefusalIsFinal(a: seq<byte>, b: seq<byte>, o: Options)
    requires Usable(o) && Parse(a, o).Refused?
    ensures Parse(a + b, o).Refused?
    decreases |a|
  {
    ReadIsStable(a, b, o);
    if TryReadFrame(a, o).Frame? {
      var n := TryReadFrame(a, o).consumed;
      assert (a + b)[n..] == a[n..] + b;
      RefusalIsFinal(a[n..], b, o);
    }
  }

  /** What parsing leaves over holds no complete frame. */
  lemma {:induction false} LeftoverIsIncomplete(stream: seq<byte>, o: Options)
    requires Usable(o) && Parse(stream, o).Frames?
    ensures TryReadFrame(stream[Parse(stream, o).consumed..], o).NeedMore?
    decreases |stream|
  {
    match TryReadFrame(stream, o)
    case NeedMore => assert stream[0..] == stream;
    case Frame(_, n) =>
      LeftoverIsIncomplete(stream[n..], o);
      var m := Parse(stream[n..], o).consumed;
      assert stream[n..][m..] == stream[n + m..];
  }

  // ----- Encoded streams -----

  ghost predicate Fit(frames: seq<seq<byte>>, o: Options) {
    forall i | 0 <= i < |frames| :: |frames[i]| <= o.maxPayload && |frames[i]| < Pow256(o.prefixWidth)
  }

  /** The frames one behind the other. */
  function EncodeAll(frames: seq<seq<byte>>, o: Options): seq<byte> {
    if frames == [] then [] else Framed(frames[0], o) + EncodeAll(frames[1..], o)
  }

  /** A stream of encoded frames parses to exactly those frames. */
  lemma {:induction false} ParseEncoded(frames: seq<seq<byte>>, o: Options)
    requires Usable(o) && Fit(frames, o)
    ensures Parse(EncodeAll(frames, o), o) == Frames(frames, |EncodeAll(frames, o)|)
  {
    if frames == [] {
      assert |EncodeAll(frames, o)| == 0;
    } else {
      var rest := EncodeAll(frames[1..], o);
      FrameReadsBack(frames[0], o, rest);
      assert (Framed(frames[0], o) + rest)[|Framed(frames[0], o)|..] == rest;
      ParseEncoded(frames[1..], o);
      assert frames == [frames[0]] + frames[1..];
    }
  }

  /** However much of a stream of encoded frames has arrived, it parses to the first of those frames. */
  lemma ParsePartial(frames: seq<seq<byte>>, arrived: seq<byte>, o: Options)
    requires Usable(o) && Fit(frames, o) && arrived <= EncodeAll(frames, o)
    ensures Parse(arrived, o).Frames? && Parse(arrived, o).payloads <= frames
  {
    ParseEncoded(frames, o);
    var all := EncodeAll(frames, o);
    var rest := all[|arrived|..];
    assert arrived + rest == all;
    if Parse(arrived, o).Refused? {
      RefusalIsFinal(arrived, rest, o);
    } else {
      ParseInParts(arrived, rest, o);
    }
  }

  lemma {:induction false} EncodeMore(frames: seq<seq<byte>>, frame: seq<byte>, o: Options)
    ensures EncodeAll(frames + [frame], o) == EncodeAll(frames, o) + Framed(frame, o)
  {
    if frames == [] {
      assert frames + [frame] == [frame];
      assert EncodeAll([frame][1..], o) == [];
    } else {
      EncodeMore(frames[1..], frame, o);
      assert (frames + [frame])[1..] == frames[1..] + [frame];
    }
  }

  // ----- What parses is what was encoded -----

  /** A frame that reads is the encoding of its payload. */
  lemma ReadIsEncoding(buffer: seq<byte>, o: Options)
    requires TryReadFrame(buffer, o).Frame?
    ensures var r := TryReadFrame(buffer, o);
            buffer[..r.consumed] == Framed(r.payload, o) && |r.payload| <= o.maxPayload && |r.payload| < Pow256(o.prefixWidth)
  {
    var r := TryReadFrame(buffer, o);
    var prefix := buffer[..o.prefixWidth];
    LittleRoundTripBack(prefix);
    SmallRemainder(|r.payload|, Pow256(o.prefixWidth));
    assert buffer[..r.consumed] == prefix + r.payload;
  }

  /** The bytes parsed are the encoding of the frames found. */
  lemma {:induction false} ParsedIsEncoding(stream: seq<byte>, o: Options)
    requires Usable(o) && Parse(stream, o).Frames?
    ensures var r := Parse(stream, o);
            stream[..r.consumed] == EncodeAll(r.payloads, o) && Fit(r.payloads, o)
    decreases |stream|
  {
    match TryReadFrame(stream, o)
    case NeedMore =>
    case Frame(payload, n) =>
      var rest := Parse(stream[n..], o);
      ReadIsEncoding(stream, o);
      ParsedIsEncoding(stream[n..], o);
      OneMoreParsed(stream, payload, n, rest.payloads, rest.consumed, o);
  }

  lemma OneMoreParsed(stream: seq<byte>, payload: seq<byte>, n: nat, more: seq<seq<byte>>, m: nat, o: Options)
    requires n + m <= |stream| && stream[..n] == Framed(payload, o) && stream[n..][..m] == EncodeAll(more, o) && Fit(more, o)
    requires |payload| <= o.maxPayload && |payload| < Pow256(o.prefixWidth)
    ensures stream[..n + m] == EncodeAll([payload] + more, o) && Fit([payload] + more, o)
  {
    assert ([payload] + more)[1..] == more;
    assert stream[..n + m] == stream[..n] + stream[n..][..m];
  }

  /** A stream parses to exactly the given frames if and only if it starts with their encoding and what
      follows holds no complete frame. */
  lemma ParsesTo(stream: seq<byte>, frames: seq<seq<byte>>, o: Options)
    requires Usable(o) && Fit(frames, o)
    ensures Parse(stream, o) == Frames(frames, |EncodeAll(frames, o)|)
            <==> EncodeAll(frames, o) <= stream && TryReadFrame(stream[|EncodeAll(frames, o)|..], o).NeedMore?
  {
    var all := EncodeAll(frames, o);
    if Parse(stream, o) == Frames(frames, |all|) {
      ParsedIsEncoding(stream, o);
      LeftoverIsIncomplete(stream, o);
    }
    if all <= stream && TryReadFrame(stream[|all|..], o).NeedMore? {
      ParseEncoded(frames, o);
      assert all[|all|..] + stream[|all|..] == stream[|all|..] && all + stream[|all|..] == stream;
      ParseInParts(all, stream[|all|..], o);
      assert frames + [] == frames;
    }
  }

  /** Part of a frame is no frame. */
  lemma PartIsIncomplete(payload: seq<byte>, part: seq<byte>, o: Options)
    requires |payload| <= o.maxPayload && |payload| < Pow256(o.prefixWidth)
    requires part <= Framed(payload, o) && |part| < |Framed(payload, o)|
    ensures TryReadFrame(part, o).NeedMore?
  {
    var rest := Framed(payload, o)[|part|..];
    assert part + rest == Framed(payload, o) + [];
    FrameReadsBack(payload, o, []);
    if !TryReadFrame(part, o).NeedMore? {
      ReadIsStable(part, rest, o);
    }
  }
}
