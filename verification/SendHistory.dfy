/** What a sequence of send attempts puts on the wire, and what a receiver makes of it. */
module SendHistory {
  import opened Bytes
  import opened Framing

  /** One call to send: the frame, the bytes of it that were written, and whether the call returned ok. */
  datatype Attempt = Attempt(frame: seq<byte>, written: seq<byte>, ok: bool)

  predicate Whole(a: Attempt, o: Options) {
    a.written == Framed(a.frame, o)
  }

  /** Some bytes of the frame were written, but not all. */
  predicate Torn(a: Attempt, o: Options) {
    a.written != [] && !Whole(a, o)
  }

  /** What a call to send guarantees: a call that returned ok wrote the whole frame, any other wrote a front
      part of it, and all of it only when the frame was empty. */
  predicate Sound(a: Attempt, o: Options) {
    && a.written <= Framed(a.frame, o)
    && (|a.frame| > o.maxPayload ==> a.written == [] && !a.ok)
    && (a.ok ==> Whole(a, o))
    && (Whole(a, o) && !a.ok ==> a.frame == [])
  }

  ghost predicate AllSound(h: seq<Attempt>, o: Options) {
    forall i | 0 <= i < |h| :: Sound(h[i], o)
  }

  /** Everything written, in order. */
  function Wire(h: seq<Attempt>): seq<byte> {
    if h == [] then [] else Wire(h[..|h| - 1]) + h[|h| - 1].written
  }

  /** The frames written in full, in order. */
  function Written(h: seq<Attempt>, o: Options): seq<seq<byte>> {
    if h == [] then []
    else
      var before := Written(h[..|h| - 1], o);
      if Whole(h[|h| - 1], o) then before + [h[|h| - 1].frame] else before
  }

  /** The frames whose sends returned ok, in order. */
  function Accepted(h: seq<Attempt>): seq<seq<byte>> {
    if h == [] then []
    else
      var before := Accepted(h[..|h| - 1]);
      if h[|h| - 1].ok then before + [h[|h| - 1].frame] else before
  }

  predicate QuietAfter(h: seq<Attempt>, o: Options, i: nat, j: nat)
    requires i < |h| && j < |h|
  {
    Torn(h[i], o) ==> h[j].written == []
  }

  /** Nothing is written behind a torn frame. */
  ghost predicate WellSent(h: seq<Attempt>, o: Options) {
    forall i, j | 0 <= i < j < |h| :: QuietAfter(h, o, i, j)
  }

  /** The bytes of the torn frame at the end, if there is one. */
  function TornEnd(h: seq<Attempt>, o: Options): seq<byte> {
    if h == [] then []
    else if Torn(h[|h| - 1], o) then h[|h| - 1].written
    else if h[|h| - 1].written == [] then TornEnd(h[..|h| - 1], o)
    else []
  }

  lemma EarlierWellSent(h: seq<Attempt>, o: Options)
    requires h != [] && WellSent(h, o) && AllSound(h, o)
    ensures WellSent(h[..|h| - 1], o) && AllSound(h[..|h| - 1], o)
  {
    var front := h[..|h| - 1];
    forall i, j | 0 <= i < j < |front|
      ensures QuietAfter(front, o, i, j)
    {
      assert QuietAfter(h, o, i, j);
    }
    forall i | 0 <= i < |front|
      ensures Sound(front[i], o)
    {
      assert Sound(h[i], o);
    }
  }

  /** A torn end comes from a torn attempt. */
  lemma {:induction false} TornEndIsTorn(h: seq<Attempt>, o: Options) returns (i: nat)
    requires TornEnd(h, o) != []
    ensures i < |h| && Torn(h[i], o) && TornEnd(h, o) == h[i].written
  {
    if Torn(h[|h| - 1], o) {
      i := |h| - 1;
    } else {
      i := TornEndIsTorn(h[..|h| - 1], o);
    }
  }

  lemma QuietAtTheEnd(h: seq<Attempt>, o: Options, i: nat)
    requires WellSent(h, o) && i < |h| - 1 && Torn(h[i], o)
    ensures h[|h| - 1].written == []
  {
    assert QuietAfter(h, o, i, |h| - 1);
  }

  /** Before an attempt that wrote something nothing is torn. */
  lemma NothingTornBefore(h: seq<Attempt>, o: Options)
    requires h != [] && WellSent(h, o) && h[|h| - 1].written != []
    ensures TornEnd(h[..|h| - 1], o) == []
  {
    if TornEnd(h[..|h| - 1], o) != [] {
      var i := TornEndIsTorn(h[..|h| - 1], o);
      QuietAtTheEnd(h, o, i);
    }
  }

  /** Unless something is written behind a torn frame, the wire holds the frames written in full and, at the
      end, the torn one. */
  lemma {:induction false} WireOfWellSent(h: seq<Attempt>, o: Options)
    requires Usable(o) && WellSent(h, o) && AllSound(h, o)
    ensures Wire(h) == EncodeAll(Written(h, o), o) + TornEnd(h, o)
  {
    if h != [] {
      EarlierWellSent(h, o);
      WireOfWellSent(h[..|h| - 1], o);
      if h[|h| - 1].written == [] {
        NothingMore(h, o);
      } else {
        NothingTornBefore(h, o);
        NothingAdded(EncodeAll(Written(h[..|h| - 1], o), o));
        SomethingMore(h, o);
      }
    }
  }

  lemma NothingMore(h: seq<Attempt>, o: Options)
    requires Usable(o) && h != [] && h[|h| - 1].written == []
    ensures Wire(h) == Wire(h[..|h| - 1]) && TornEnd(h, o) == TornEnd(h[..|h| - 1], o)
    ensures Written(h, o) == Written(h[..|h| - 1], o)
  {
    assert |Framed(h[|h| - 1].frame, o)| > 0;
  }

  lemma NothingAdded(s: seq<byte>)
    ensures s + [] == s
  {
  }

  lemma SomethingMore(h: seq<Attempt>, o: Options)
    requires h != [] && h[|h| - 1].written != []
    requires Wire(h[..|h| - 1]) == EncodeAll(Written(h[..|h| - 1], o), o)
    ensures Wire(h) == EncodeAll(Written(h, o), o) + TornEnd(h, o)
  {
    var front, last := h[..|h| - 1], h[|h| - 1];
    if Whole(last, o) {
      EncodeMore(Written(front, o), last.frame, o);
      NothingAdded(Wire(h));
    }
  }

  lemma {:induction false} WrittenFits(h: seq<Attempt>, o: Options)
    requires Usable(o) && o.maxPayload < Pow256(o.prefixWidth) && AllSound(h, o)
    ensures Fit(Written(h, o), o)
  {
    if h != [] {
      var front, last := h[..|h| - 1], h[|h| - 1];
      assert forall i | 0 <= i < |front| :: front[i] == h[i];
      assert forall i | 0 <= i < |front| :: Sound(h[i], o);
      WrittenFits(front, o);
      assert Sound(last, o) && |Framed(last.frame, o)| > 0;
    }
  }

  /** A torn end holds no complete frame. */
  lemma TornEndIsIncomplete(h: seq<Attempt>, o: Options)
    requires Usable(o) && o.maxPayload < Pow256(o.prefixWidth) && AllSound(h, o)
    ensures TryReadFrame(TornEnd(h, o), o).NeedMore?
  {
    if TornEnd(h, o) != [] {
      var i := TornEndIsTorn(h, o);
      assert Sound(h[i], o);
      PartIsIncomplete(h[i].frame, h[i].written, o);
    }
  }

  /** Once all of the wire has arrived, it parses to exactly the frames written in full. */
  lemma AllArrived(h: seq<Attempt>, o: Options)
    requires Usable(o) && o.maxPayload < Pow256(o.prefixWidth) && AllSound(h, o) && WellSent(h, o)
    ensures Parse(Wire(h), o) == Frames(Written(h, o), |EncodeAll(Written(h, o), o)|)
  {
    WireOfWellSent(h, o);
    WrittenFits(h, o);
    TornEndIsIncomplete(h, o);
    var all := EncodeAll(Written(h, o), o);
    assert Wire(h)[|all|..] == TornEnd(h, o) && all <= Wire(h);
    ParsesTo(Wire(h), Written(h, o), o);
  }

  /** Whatever part of the wire has arrived, it parses to the first of those frames. */
  lemma PartArrived(h: seq<Attempt>, arrived: seq<byte>, o: Options)
    requires Usable(o) && o.maxPayload < Pow256(o.prefixWidth) && AllSound(h, o) && WellSent(h, o)
    requires arrived <= Wire(h)
    ensures Parse(arrived, o).Frames? && Parse(arrived, o).payloads <= Written(h, o)
  {
    AllArrived(h, o);
    var rest := Wire(h)[|arrived|..];
    assert arrived + rest == Wire(h);
    if Parse(arrived, o).Refused? {
      RefusalIsFinal(arrived, rest, o);
    } else {
      ParseInParts(arrived, rest, o);
    }
  }

  /** For any attempts at all: the whole wire parses to exactly the frames written in full if and only if it
      starts with their encoding and holds no complete frame behind it. */
  lemma DeliveredExactly(h: seq<Attempt>, o: Options)
    requires Usable(o) && o.maxPayload < Pow256(o.prefixWidth) && AllSound(h, o)
    ensures var all := EncodeAll(Written(h, o), o);
            Parse(Wire(h), o) == Frames(Written(h, o), |all|)
            <==> all <= Wire(h) && TryReadFrame(Wire(h)[|all|..], o).NeedMore?
  {
    WrittenFits(h, o);
    ParsesTo(Wire(h), Written(h, o), o);
  }

  lemma {:induction false} WrittenInParts(a: seq<Attempt>, b: seq<Attempt>, o: Options)
    ensures Written(a + b, o) == Written(a, o) + Written(b, o) && Wire(a + b) == Wire(a) + Wire(b)
    decreases |b|
  {
    if b == [] {
      assert a + b == a;
    } else {
      var front := b[..|b| - 1];
      assert (a + b)[..|a + b| - 1] == a + front;
      WrittenInParts(a, front, o);
    }
  }

  lemma {:induction false} EncodeInParts(a: seq<seq<byte>>, b: seq<seq<byte>>, o: Options)
    ensures EncodeAll(a + b, o) == EncodeAll(a, o) + EncodeAll(b, o)
  {
    if a == [] {
      assert a + b == b;
    } else {
      assert (a + b)[1..] == a[1..] + b;
      EncodeInParts(a[1..], b, o);
    }
  }

  lemma ShiftedFront(front: seq<byte>, torn: seq<byte>, rest: seq<byte>)
    requires front + rest <= front + (torn + rest) && |torn| <= |rest|
    ensures rest[..|torn|] == torn
  {
    var n := |front|;
    assert (front + rest)[n..n + |torn|] == rest[..|torn|];
    assert (front + (torn + rest))[n..n + |torn|] == torn;
  }

  /** A torn frame with further frames written behind it is fatal unless the further bytes begin with those of
      the torn frame over again: otherwise the receiver does not get the frames that were written in full. */
  lemma TornIsFatal(before: seq<Attempt>, torn: Attempt, after: seq<Attempt>, o: Options)
    requires Usable(o) && o.maxPayload < Pow256(o.prefixWidth) && AllSound(before + [torn] + after, o)
    requires WellSent(before, o) && TornEnd(before, o) == [] && Torn(torn, o)
    requires WellSent(after, o) && TornEnd(after, o) == []
    requires |torn.written| <= |Wire(after)| && Wire(after)[..|torn.written|] != torn.written
    ensures var h := before + [torn] + after;
            forall n :: Parse(Wire(h), o) != Frames(Written(h, o), n)
  {
    PartsSound(before, torn, after, o);
    WireIsEncoding(before, o);
    WireIsEncoding(after, o);
    PartsOfHistory(before, torn, after, o);
    EncodeInParts(Written(before, o), Written(after, o), o);
    var h := before + [torn] + after;
    NotTheFrames(Wire(h), Written(h, o), Wire(before), torn.written, Wire(after), o);
  }

  lemma WireIsEncoding(h: seq<Attempt>, o: Options)
    requires Usable(o) && WellSent(h, o) && AllSound(h, o) && TornEnd(h, o) == []
    ensures Wire(h) == EncodeAll(Written(h, o), o)
  {
    WireOfWellSent(h, o);
  }

  lemma PartsOfHistory(before: seq<Attempt>, torn: Attempt, after: seq<Attempt>, o: Options)
    requires Torn(torn, o)
    ensures Wire(before + [torn] + after) == Wire(before) + (torn.written + Wire(after))
    ensures Written(before + [torn] + after, o) == Written(before, o) + Written(after, o)
  {
    WrittenInParts(before + [torn], after, o);
    WrittenInParts(before, [torn], o);
    JustTorn(torn, o);
    Regroup(Wire(before), torn.written, Wire(after));
  }

  lemma Regroup(a: seq<byte>, b: seq<byte>, c: seq<byte>)
    ensures (a + b) + c == a + (b + c)
  {
  }

  /** A stream with extra bytes in the middle of an encoding does not parse to the frames encoded. */
  lemma NotTheFrames(stream: seq<byte>, frames: seq<seq<byte>>, front: seq<byte>, torn: seq<byte>, rest: seq<byte>, o: Options)
    requires Usable(o) && stream == front + (torn + rest) && EncodeAll(frames, o) == front + rest
    requires |torn| <= |rest| && rest[..|torn|] != torn
    ensures forall n :: Parse(stream, o) != Frames(frames, n)
  {
    if Parse(stream, o).Frames? && Parse(stream, o).payloads == frames {
      ParsedIsEncoding(stream, o);
      ShiftedFront(front, torn, rest);
    }
  }

  lemma JustTorn(torn: Attempt, o: Options)
    requires Torn(torn, o)
    ensures Written([torn], o) == [] && Wire([torn]) == torn.written
  {
    assert [torn][..0] == [];
  }

  lemma PartsSound(before: seq<Attempt>, torn: Attempt, after: seq<Attempt>, o: Options)
    requires AllSound(before + [torn] + after, o)
    ensures AllSound(before, o) && Sound(torn, o) && AllSound(after, o)
  {
    var h := before + [torn] + after;
    forall i | 0 <= i < |before|
      ensures Sound(before[i], o)
    {
      assert Sound(h[i], o);
    }
    assert Sound(h[|before|], o);
    forall i | 0 <= i < |after|
      ensures Sound(after[i], o)
    {
      assert Sound(h[|before| + 1 + i], o);
    }
  }

  // ----- Which frames those are -----

  function NonEmpty(frames: seq<seq<byte>>): seq<seq<byte>> {
    if frames == [] then []
    else
      var before := NonEmpty(frames[..|frames| - 1]);
      if frames[|frames| - 1] == [] then before else before + [frames[|frames| - 1]]
  }

  lemma NonEmptyMore(frames: seq<seq<byte>>, f: seq<byte>)
    ensures NonEmpty(frames + [f]) == if f == [] then NonEmpty(frames) else NonEmpty(frames) + [f]
  {
    assert (frames + [f])[..|frames|] == frames;
  }

  /** The frames written in full are those whose sends returned ok, but for empty frames whose sends failed
      after everything had been written. */
  lemma {:induction false} WrittenAreAccepted(h: seq<Attempt>, o: Options)
    requires Usable(o) && AllSound(h, o)
    ensures NonEmpty(Written(h, o)) == NonEmpty(Accepted(h))
    ensures (forall i | 0 <= i < |h| :: Whole(h[i], o) ==> h[i].ok) ==> Written(h, o) == Accepted(h)
  {
    if h != [] {
      var front, last := h[..|h| - 1], h[|h| - 1];
      assert forall i | 0 <= i < |front| :: front[i] == h[i];
      assert forall i | 0 <= i < |front| :: Sound(h[i], o);
      WrittenAreAccepted(front, o);
      assert Sound(last, o);
      NonEmptyMore(Written(front, o), last.frame);
      NonEmptyMore(Accepted(front), last.frame);
    }
  }

  // ----- A torn frame loses a later one -----

  const ONE_BYTE_PREFIX: Options := Options(1, 255)

  /** With a one-byte prefix: a send of `[7]` that fails after one byte, then a send of `[8]` that returns ok. */
  function TornThenOk(): seq<Attempt> {
    [Attempt([7], [1], false), Attempt([8], [1, 8], true)]
  }

  lemma TwoAttempts(a: Attempt, b: Attempt)
    ensures Wire([a, b]) == a.written + b.written
    ensures !a.ok && b.ok ==> Accepted([a, b]) == [b.frame]
  {
    assert [a, b][..1] == [a] && [a][..0] == [];
    NothingAdded(a.written);
    assert Wire([a]) == [] + a.written == a.written;
    assert !a.ok ==> Accepted([a]) == [];
    assert [b.frame] == [] + [b.frame];
  }

  lemma OneByteFrame(b: byte)
    ensures Framed([b], ONE_BYTE_PREFIX) == [1, b]
  {
    assert Pow256(1) == 256;
    assert LittleBytes(0, 0) == [];
    assert LittleBytes(1, 1) == [1];
  }

  /** The second frame never arrives although its send returned ok: the receiver reads `[1]` instead. */
  lemma TornFrameLosesTheNext()
    ensures var h := TornThenOk();
            && AllSound(h, ONE_BYTE_PREFIX) && Accepted(h) == [[8]]
            && Parse(Wire(h), ONE_BYTE_PREFIX) == Frames([[1]], 2)
  {
    var o, h := ONE_BYTE_PREFIX, TornThenOk();
    OneByteFrame(7);
    OneByteFrame(8);
    TwoAttempts(h[0], h[1]);
    var first: seq<byte>, rest: seq<byte> := [1], [8];
    OneByteFrame(1);
    assert Wire(h) == Framed(first, o) + rest;
    FrameReadsBack(first, o, rest);
    assert (Framed(first, o) + rest)[2..] == rest;
    PrefixOfEight(o);
  }

  lemma PrefixOfEight(o: Options)
    requires o == ONE_BYTE_PREFIX
    ensures Parse([8], o) == Frames([], 0)
  {
    var s: seq<byte> := [8];
    assert s[1..] == [] && s[..1] == s;
    assert LittleValue([]) == 0;
    assert LittleValue(s) == 8;
  }
}
