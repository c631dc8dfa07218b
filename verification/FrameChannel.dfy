/** A framed channel over a byte-stream transport that reads and writes as much as it likes at a time. */
module FrameChannel {
  import opened Prelude
  import opened Bytes
  import opened Framing
  import SendHistory

  datatype Failure = TransportError | NoProgress | TimedOut | Exhausted | NotReady

  datatype WriteResult = Wrote(count: nat, wouldBlock: bool) | WriteFailed

  datatype Received = Data(bytes: seq<byte>) | WouldBlock | EndOfStream | ReadFailed

  /** A byte-stream transport. It takes any part of what it is offered and delivers any part of what is
      under way. It reports being ready without then making progress only so many times. */
  class Transport {
    ghost var sent: seq<byte>
    var incoming: seq<byte>
    var patience: nat

    constructor (incoming: seq<byte>, patience: nat)
      ensures sent == [] && this.incoming == incoming && this.patience == patience
    {
      sent, this.incoming, this.patience := [], incoming, patience;
    }

    /** Writes some part of the spans, in order. */
    method Writev(spans: seq<seq<byte>>) returns (r: WriteResult)
      modifies this`sent
      ensures r.Wrote? ==> r.count <= |Join(spans)| && sent == old(sent) + Join(spans)[..r.count]
      ensures r.WriteFailed? ==> sent == old(sent)
    {
      if * {
        return WriteFailed;
      }
      var n: nat :| n <= |Join(spans)|;
      sent := sent + Join(spans)[..n];
      var blocked: bool := *;
      return Wrote(n, blocked);
    }

    /** Reads some part of what is under way. */
    method Read(size: nat) returns (r: Received)
      modifies this`incoming, this`patience
      ensures match r
              case Data(bytes) => |bytes| <= size && bytes + incoming == old(incoming) && (bytes == [] ==> patience < old(patience))
              case _ => incoming == old(incoming)
      ensures patience <= old(patience)
    {
      if * {
        return ReadFailed;
      } else if * {
        return WouldBlock;
      } else if * {
        return EndOfStream;
      }
      var n: nat :| n <= size && n <= |incoming|;
      if n == 0 {
        if patience == 0 {
          return WouldBlock;
        }
        patience := patience - 1;
      }
      var bytes := incoming[..n];
      incoming := incoming[n..];
      return Data(bytes);
    }

    /** Waits until the transport can be written to; no for a timeout, none for an error. */
    method WaitUntilWritable() returns (r: Option<bool>)
      modifies this`patience
      ensures r == Some(true) ==> patience < old(patience)
      ensures patience <= old(patience)
    {
      if * {
        return None;
      } else if patience == 0 {
        return Some(false);
      } else if * {
        return Some(false);
      }
      patience := patience - 1;
      return Some(true);
    }
  }

  function Join(spans: seq<seq<byte>>): seq<byte> {
    if spans == [] then [] else spans[0] + Join(spans[1..])
  }

  /** The bytes in front of span `k`. */
  function Before(spans: seq<seq<byte>>, k: nat): nat
    requires k <= |spans|
  {
    if k == 0 then 0 else |spans[0]| + Before(spans[1..], k - 1)
  }

  lemma {:induction false} BeforeNext(spans: seq<seq<byte>>, k: nat)
    requires k < |spans|
    ensures Before(spans, k + 1) == Before(spans, k) + |spans[k]| <= |Join(spans)|
  {
    if k > 0 {
      BeforeNext(spans[1..], k - 1);
    } else {
      assert Before(spans[1..], 0) == 0;
    }
  }

  lemma {:induction false} BeforeAll(spans: seq<seq<byte>>)
    ensures Before(spans, |spans|) == |Join(spans)|
  {
    if spans != [] {
      BeforeAll(spans[1..]);
    }
  }

  /** A part of a span is found in the joined spans behind those in front of it. */
  lemma {:induction false} SpanInJoin(spans: seq<seq<byte>>, k: nat, from: nat, to: nat)
    requires k < |spans| && from <= to <= |spans[k]|
    ensures Before(spans, k) + to <= |Join(spans)|
    ensures Join(spans)[Before(spans, k) + from..Before(spans, k) + to] == spans[k][from..to]
  {
    if k == 0 {
      assert (spans[0] + Join(spans[1..]))[from..to] == spans[0][from..to];
    } else {
      SpanInJoin(spans[1..], k - 1, from, to);
      SliceBehind(spans[0], Join(spans[1..]), Before(spans[1..], k - 1) + from, Before(spans[1..], k - 1) + to);
    }
  }

  /** How many bytes lie in front of a place in the spans. */
  ghost predicate At(spans: seq<seq<byte>>, index: nat, offset: nat, place: nat) {
    && index <= |spans| && (index < |spans| ==> offset < |spans[index]| || offset == 0) && (index == |spans| ==> offset == 0)
    && place == Before(spans, index) + offset
  }

  lemma AtWithin(spans: seq<seq<byte>>, index: nat, offset: nat, place: nat)
    requires At(spans, index, offset, place)
    ensures place <= |Join(spans)| && (index == |spans| ==> place == |Join(spans)|)
    ensures index < |spans| ==> At(spans, index + 1, 0, place + |spans[index]| - offset)
  {
    BeforeAll(spans);
    if index < |spans| {
      BeforeNext(spans, index);
    }
  }

  lemma {:induction false} BeforeMonotone(spans: seq<seq<byte>>, j: nat, k: nat)
    requires j <= k <= |spans|
    ensures Before(spans, j) <= Before(spans, k)
    decreases k
  {
    if j < k {
      BeforeMonotone(spans, j, k - 1);
      BeforeNext(spans, k - 1);
    }
  }

  /** If nothing is left although a span is not finished, the last span is empty. */
  lemma NothingLeft(spans: seq<seq<byte>>, index: nat, offset: nat, place: nat)
    requires At(spans, index, offset, place) && index < |spans| && place == |Join(spans)|
    ensures spans[|spans| - 1] == []
  {
    BeforeAll(spans);
    BeforeNext(spans, |spans| - 1);
    if index < |spans| - 1 {
      BeforeNext(spans, index);
      BeforeMonotone(spans, index + 1, |spans| - 1);
    }
  }

  /** A failed write that left nothing out had only empty spans left. */
  lemma FailedWhole(before: seq<byte>, spans: seq<seq<byte>>, index: nat, offset: nat, place: nat)
    requires At(spans, index, offset, place) && index < |spans| && place <= |Join(spans)|
    ensures before + Join(spans)[..place] == before + Join(spans) ==> spans[|spans| - 1] == []
  {
    if before + Join(spans)[..place] == before + Join(spans) {
      assert |before + Join(spans)[..place]| == |before| + place;
      NothingLeft(spans, index, offset, place);
    }
  }

  /** Moves past `n` written bytes. */
  method Skip(spans: seq<seq<byte>>, index: nat, offset: nat, n: nat, ghost place: nat) returns (index': nat, offset': nat)
    requires At(spans, index, offset, place) && place + n <= |Join(spans)|
    ensures At(spans, index', offset', place + n) && index <= index'
  {
    index', offset' := index, offset;
    var consumed: nat := n;
    while consumed > 0 && index' < |spans|
      invariant consumed <= n && index <= index' && At(spans, index', offset', place + n - consumed)
      decreases |spans| - index'
    {
      var remaining := |spans[index']| - offset';
      AtWithin(spans, index', offset', place + n - consumed);
      if consumed < remaining {
        offset' := offset' + consumed;
        consumed := 0;
        break;
      }
      consumed := consumed - remaining;
      index', offset' := index' + 1, 0;
    }
    AtWithin(spans, index', offset', place + n - consumed);
  }

  /** Offers the rest of a span and the next one, and moves past what was taken. */
  method WriteSome(t: Transport, spans: seq<seq<byte>>, index: nat, offset: nat, ghost place: nat)
    returns (r: WriteResult, index': nat, offset': nat, ghost place': nat)
    requires At(spans, index, offset, place) && index < |spans|
    modifies t`sent
    ensures At(spans, index', offset', place') && index <= index' && place <= place' <= |Join(spans)|
    ensures r.WriteFailed? ==> index' < |spans|
    ensures t.sent == old(t.sent) + Join(spans)[place..place']
  {
    var pending := [spans[index][offset..]];
    if index + 1 < |spans| && spans[index + 1] != [] {
      pending := pending + [spans[index + 1]];
    }
    PendingIsFront(spans, index, offset, place, pending);
    r := t.Writev(pending);
    index', offset', place' := index, offset, place;
    if r.Wrote? {
      FrontOfSlice(Join(spans), place, place + |Join(pending)|, r.count);
      index', offset' := Skip(spans, index, offset, r.count, place);
      place' := place + r.count;
    }
  }

  lemma FrontOfSlice(all: seq<byte>, from: nat, to: nat, n: nat)
    requires from <= to <= |all| && n <= to - from
    ensures all[from..to][..n] == all[from..from + n]
  {}

  lemma SentMore(before: seq<byte>, all: seq<byte>, mid: nat, to: nat)
    requires mid <= to <= |all|
    ensures before + all[..mid] + all[mid..to] == before + all[..to]
    ensures before <= before + all[..to] <= before + all
  {
    Adjoin(all, 0, mid, to);
  }

  /** Writes all spans, however little the transport takes at a time. */
  method WriteSpansFully(t: Transport, spans: seq<seq<byte>>) returns (failure: Option<Failure>)
    modifies t`sent, t`patience
    ensures failure.None? ==> t.sent == old(t.sent) + Join(spans)
    ensures old(t.sent) <= t.sent <= old(t.sent) + Join(spans)
    ensures failure.Some? && t.sent == old(t.sent) + Join(spans) ==> spans == [] || spans[|spans| - 1] == []
  {
    var index: nat, offset: nat := 0, 0;
    ghost var place: nat := 0;
    SentMore(t.sent, Join(spans), 0, 0);
    while index < |spans|
      invariant At(spans, index, offset, place) && place <= |Join(spans)| && t.sent == old(t.sent) + Join(spans)[..place]
      decreases t.patience, |spans| - index
    {
      AtWithin(spans, index, offset, place);
      SentMore(old(t.sent), Join(spans), place, place);
      if |spans[index]| <= offset {
        index, offset := index + 1, 0;
        continue;
      }
      var r;
      ghost var place0 := place;
      r, index, offset, place := WriteSome(t, spans, index, offset, place);
      SentMore(old(t.sent), Join(spans), place0, place);
      if index < |spans| {
        FailedWhole(old(t.sent), spans, index, offset, place);
      }
      if r.WriteFailed? {
        return Some(TransportError);
      }
      if index >= |spans| {
        break;
      }
      if !r.wouldBlock && r.count == 0 {
        return Some(NoProgress);
      }
      var writable := t.WaitUntilWritable();
      if writable.None? {
        return Some(TransportError);
      }
      if !writable.value {
        return Some(TimedOut);
      }
    }
    AtWithin(spans, index, offset, place);
    SentMore(old(t.sent), Join(spans), place, place);
    assert Join(spans)[..|Join(spans)|] == Join(spans);
    return None;
  }

  /** What is offered lies in the joined spans from the present place on. */
  lemma PendingIsFront(spans: seq<seq<byte>>, index: nat, offset: nat, place: nat, pending: seq<seq<byte>>)
    requires At(spans, index, offset, place) && index < |spans|
    requires pending == [spans[index][offset..]] ||
             (index + 1 < |spans| && pending == [spans[index][offset..], spans[index + 1]])
    ensures place + |Join(pending)| <= |Join(spans)|
    ensures Join(pending) == Join(spans)[place..place + |Join(pending)|]
  {
    OneInJoin(spans, index, offset, place);
    if |pending| == 1 {
      JoinOne(spans[index][offset..]);
    } else {
      JoinTwo(spans[index][offset..], spans[index + 1]);
      TwoInJoin(spans, index, offset, place);
    }
  }

  lemma OneInJoin(spans: seq<seq<byte>>, index: nat, offset: nat, place: nat)
    requires At(spans, index, offset, place) && index < |spans|
    ensures var n := |spans[index]| - offset;
            place + n <= |Join(spans)| && Join(spans)[place..place + n] == spans[index][offset..]
  {
    SpanInJoin(spans, index, offset, |spans[index]|);
  }

  lemma TwoInJoin(spans: seq<seq<byte>>, index: nat, offset: nat, place: nat)
    requires At(spans, index, offset, place) && index + 1 < |spans|
    ensures var n := |spans[index]| - offset + |spans[index + 1]|;
            place + n <= |Join(spans)| && Join(spans)[place..place + n] == spans[index][offset..] + spans[index + 1]
  {
    OneInJoin(spans, index, offset, place);
    NextInJoin(spans, index);
    Adjoined(Join(spans), place, spans[index][offset..], spans[index + 1]);
  }

  lemma NextInJoin(spans: seq<seq<byte>>, index: nat)
    requires index + 1 < |spans|
    ensures var at := Before(spans, index) + |spans[index]|;
            at + |spans[index + 1]| <= |Join(spans)| && Join(spans)[at..at + |spans[index + 1]|] == spans[index + 1]
  {
    BeforeNext(spans, index);
    SpanInJoin(spans, index + 1, 0, |spans[index + 1]|);
  }

  lemma Adjoined(all: seq<byte>, place: nat, a: seq<byte>, b: seq<byte>)
    requires place + |a| + |b| <= |all| && all[place..place + |a|] == a && all[place + |a|..place + |a| + |b|] == b
    ensures all[place..place + |a + b|] == a + b
  {
    Adjoin(all, place, place + |a|, place + |a| + |b|);
  }

  lemma JoinOne(a: seq<byte>)
    ensures Join([a]) == a
  {
    assert [a][1..] == [];
    assert Join([a]) == a + [];
  }

  lemma JoinTwo(a: seq<byte>, b: seq<byte>)
    ensures Join([a, b]) == a + b
  {
    JoinOne(b);
    assert [a, b][1..] == [b];
  }

  /** A framed channel: length prefixes going out, a stream buffer coming in. */
  class Channel {
    const t: Transport
    const o: Options
    var streamBuffer: seq<byte>
    var bufferOffset: nat
    ghost var stream: seq<byte>
    ghost var delivered: seq<seq<byte>>
    /** What the transport had sent before this channel, and every send attempt since. */
    ghost const sentBefore: seq<byte>
    ghost var history: seq<SendHistory.Attempt>

    /** All that has been sent since is what the attempts wrote. */
    ghost predicate Recorded()
      reads this, t
    {
      Usable(o) && t.sent == sentBefore + SendHistory.Wire(history) && SendHistory.AllSound(history, o)
    }

    /** Everything that will have come in is the frames delivered, the unread bytes and what is under way. */
    ghost predicate Valid()
      reads this, t
    {
      Usable(o) && bufferOffset <= |streamBuffer| && AccountsFor(stream, delivered, Unread() + t.incoming, o)
    }

    ghost function Unread(): seq<byte>
      requires bufferOffset <= |streamBuffer|
      reads this
    {
      streamBuffer[bufferOffset..]
    }

    constructor (t: Transport, o: Options)
      requires Usable(o)
      ensures Valid() && this.t == t && this.o == o && stream == t.incoming && delivered == []
      ensures Recorded() && sentBefore == t.sent && history == []
    {
      this.t, this.o := t, o;
      streamBuffer, bufferOffset := [], 0;
      stream, delivered := t.incoming, [];
      sentBefore, history := t.sent, [];
      new;
      assert t.sent + [] == t.sent;
    }

    /** Sends one frame behind its length; a frame larger than allowed is refused before anything is written. */
    method SendFrame(frame: seq<byte>) returns (failure: Option<Failure>)
      requires Recorded()
      modifies t`sent, t`patience, this`history
      ensures Recorded() && t.incoming == old(t.incoming)
      ensures |history| == |old(history)| + 1 && history[..|old(history)|] == old(history)
      ensures history[|old(history)|].frame == frame && history[|old(history)|].ok == failure.None?
      ensures EncodeFrame(frame, o).None? ==> failure == Some(Exhausted) && t.sent == old(t.sent)
    {
      if |frame| > o.maxPayload {
        RecordAttempt(frame, [], false);
        return Some(Exhausted);
      }
      ghost var sent := t.sent;
      var prefix := LittleBytes(|frame| % Pow256(o.prefixWidth), o.prefixWidth);
      JoinTwo(prefix, frame);
      failure := WriteSpansFully(t, [prefix, frame]);
      assert failure.Some? && t.sent == sent + Framed(frame, o) ==> frame == [];
      ghost var written := t.sent[|sent|..];
      FrontOfWrite(sent, t.sent, Framed(frame, o));
      RecordAttempt(frame, written, failure.None?);
    }

    /** Adds what an attempt wrote to the history. */
    ghost method RecordAttempt(frame: seq<byte>, written: seq<byte>, ok: bool)
      requires Usable(o) && t.sent == sentBefore + SendHistory.Wire(history) + written && SendHistory.AllSound(history, o)
      requires SendHistory.Sound(SendHistory.Attempt(frame, written, ok), o)
      modifies this`history
      ensures Recorded() && history == old(history) + [SendHistory.Attempt(frame, written, ok)]
    {
      ghost var a := SendHistory.Attempt(frame, written, ok);
      AddAttempt(sentBefore, history, a, o);
      history := history + [a];
    }

    /** Sends frames in turn up to the first that fails. */
    method SendFrames(frames: seq<seq<byte>>) returns (failure: Option<Failure>)
      requires Recorded()
      modifies t`sent, t`patience, this`history
      ensures Recorded()
      ensures failure.None? ==> SendHistory.Accepted(history) == SendHistory.Accepted(old(history)) + frames
    {
      for k := 0 to |frames|
        invariant Recorded() && SendHistory.Accepted(history) == SendHistory.Accepted(old(history)) + frames[..k]
      {
        ghost var was := history;
        failure := SendFrame(frames[k]);
        if failure.Some? {
          return;
        }
        assert history[..|history| - 1] == was;
        assert frames[..k + 1] == frames[..k] + [frames[k]];
      }
      assert frames[..|frames|] == frames;
      return None;
    }

    /** Drops the consumed front of the stream buffer. */
    method Compact()
      requires bufferOffset <= |streamBuffer|
      modifies this`streamBuffer, this`bufferOffset
      ensures bufferOffset == 0 && Unread() == old(Unread())
    {
      if bufferOffset == 0 {
        return;
      }
      if bufferOffset >= |streamBuffer| {
        streamBuffer, bufferOffset := [], 0;
        return;
      }
      streamBuffer, bufferOffset := streamBuffer[bufferOffset..], 0;
    }

    /** Reads what has arrived behind the unread bytes. */
    method Fill() returns (r: Received)
      requires bufferOffset <= |streamBuffer|
      modifies this`streamBuffer, this`bufferOffset, t`incoming, t`patience
      ensures bufferOffset <= |streamBuffer|
      ensures Unread() + t.incoming == old(Unread() + t.incoming)
      ensures !r.Data? ==> Unread() == old(Unread())
      ensures r.Data? ==> |t.incoming| < |old(t.incoming)| || (t.incoming == old(t.incoming) && t.patience < old(t.patience))
      ensures |t.incoming| <= |old(t.incoming)| && t.patience <= old(t.patience)
    {
      var unread := |streamBuffer| - bufferOffset;
      if bufferOffset > 0 && (unread == 0 || bufferOffset >= |streamBuffer| / 2) {
        Compact();
      }
      ghost var before := Unread();
      var target := if o.maxPayload > 4096 then (if o.maxPayload < 65536 then o.maxPayload else 65536) else 4096;
      r := t.Read(target);
      if r.Data? {
        streamBuffer := streamBuffer + r.bytes;
        assert Unread() == before + r.bytes;
        assert (before + r.bytes) + t.incoming == before + (r.bytes + t.incoming);
      }
    }

    /** Gets the frame at the front of the stream, reading as much as it takes. The lease lies in the stream
        buffer and stays there until it is released. */
    method TryAcquireFrame() returns (r: Result<nat, Failure>)
      requires Valid()
      modifies this`streamBuffer, this`bufferOffset, t`incoming, t`patience
      ensures Valid()
      ensures stream == old(stream) && delivered == old(delivered)
      ensures r.Ok? ==> TryReadFrame(Unread(), o).Frame? && TryReadFrame(Unread(), o).consumed == o.prefixWidth + r.value
      ensures r.Ok? ==> TryReadFrame(Unread(), o).payload
                        == streamBuffer[bufferOffset + o.prefixWidth..bufferOffset + o.prefixWidth + r.value]
      ensures r == Err(Exhausted) ==> TryReadFrame(Unread(), o).TooLarge? && Parse(stream, o).Refused?
      ensures r.Err? && r != Err(Exhausted) ==> TryReadFrame(Unread(), o).NeedMore?
      ensures r == Err(TransportError) ==> |Unread()| < o.prefixWidth
      ensures r.Err? ==> r.error.Exhausted? || r.error.NotReady? || r.error.TransportError?
    {
      while true
        invariant Valid()
        decreases |t.incoming|, t.patience
      {
        var frame := TryReadFrame(streamBuffer[bufferOffset..], o);
        match frame
        case TooLarge =>
          RefusedBehind(stream, delivered, Unread(), t.incoming, o);
          return Err(Exhausted);
        case Frame(payload, consumed) =>
          FrameLies(streamBuffer, bufferOffset, o);
          return Ok(|payload|);
        case NeedMore =>
          var prefixRead := |streamBuffer| - bufferOffset >= o.prefixWidth;
          var filled := Fill();
          if !filled.Data? {
            return Err(if filled.ReadFailed? && !prefixRead then TransportError else NotReady);
          }
      }
    }

    /** Gives a frame back; the stream goes on behind it. */
    method ReleaseFrame(size: nat)
      requires Valid() && TryReadFrame(Unread(), o).Frame? && TryReadFrame(Unread(), o).consumed == o.prefixWidth + size
      modifies this`streamBuffer, this`bufferOffset, this`delivered
      ensures Valid() && stream == old(stream)
      ensures delivered == old(delivered) + [TryReadFrame(old(Unread()), o).payload]
    {
      FrameDelivered(stream, delivered, Unread(), t.incoming, o);
      delivered := delivered + [TryReadFrame(Unread(), o).payload];
      ghost var unread := Unread();
      bufferOffset := bufferOffset + o.prefixWidth + size;
      assert Unread() == unread[o.prefixWidth + size..];
      Compact();
    }
  }

  lemma FrontOfWrite(before: seq<byte>, after: seq<byte>, whole: seq<byte>)
    requires before <= after <= before + whole
    ensures after == before + after[|before|..] && after[|before|..] <= whole
    ensures after[|before|..] == whole <==> after == before + whole
  {
  }

  lemma AddAttempt(before: seq<byte>, h: seq<SendHistory.Attempt>, a: SendHistory.Attempt, o: Options)
    requires SendHistory.AllSound(h, o) && SendHistory.Sound(a, o)
    ensures before + SendHistory.Wire(h) + a.written == before + SendHistory.Wire(h + [a]) && SendHistory.AllSound(h + [a], o)
  {
    var longer := h + [a];
    assert longer[..|h|] == h;
    SendHistory.Regroup(before, SendHistory.Wire(h), a.written);
    forall i | 0 <= i < |longer|
      ensures SendHistory.Sound(longer[i], o)
    {
      assert i < |h| ==> SendHistory.Sound(h[i], o);
    }
  }

  /** Where the payload of the frame at the front lies in the buffer. */
  lemma FrameLies(buffer: seq<byte>, at: nat, o: Options)
    requires at <= |buffer| && TryReadFrame(buffer[at..], o).Frame?
    ensures var r := TryReadFrame(buffer[at..], o);
            at + r.consumed <= |buffer| && r.payload == buffer[at + o.prefixWidth..at + r.consumed]
  {}

  /** A refused frame at the front makes the rest of the stream unreadable. */
  lemma RefusedBehind(stream: seq<byte>, delivered: seq<seq<byte>>, unread: seq<byte>, incoming: seq<byte>, o: Options)
    requires Usable(o) && AccountsFor(stream, delivered, unread + incoming, o) && TryReadFrame(unread, o).TooLarge?
    ensures Parse(stream, o).Refused?
  {
    RefusalIsFinal(unread, incoming, o);
    RefusedTail(stream, delivered, unread + incoming, o);
  }

  lemma RefusedTail(stream: seq<byte>, delivered: seq<seq<byte>>, rest: seq<byte>, o: Options)
    requires Usable(o) && AccountsFor(stream, delivered, rest, o) && Parse(rest, o).Refused?
    ensures Parse(stream, o).Refused?
  {
    var parsed := stream[..|stream| - |rest|];
    assert parsed[|parsed|..] + rest == rest && parsed + rest == stream;
    ParseInParts(parsed, rest, o);
  }

  /** The frame at the front of the unread bytes is the next frame of the stream. */
  lemma FrameDelivered(stream: seq<byte>, delivered: seq<seq<byte>>, unread: seq<byte>, incoming: seq<byte>, o: Options)
    requires Usable(o) && AccountsFor(stream, delivered, unread + incoming, o) && TryReadFrame(unread, o).Frame?
    ensures var r := TryReadFrame(unread, o);
            AccountsFor(stream, delivered + [r.payload], unread[r.consumed..] + incoming, o)
  {
    var r := TryReadFrame(unread, o);
    var done := |stream| - |unread + incoming|;
    FrontOfStream(stream, unread, incoming, r.consumed);
    FrontReads(unread, r.consumed, o);
    OneFrame(unread[..r.consumed], o);
    MoreParsed(stream[..done], delivered, unread[..r.consumed], r.payload, o);
  }

  /** Bytes that are all parsed, and one more frame behind them. */
  lemma MoreParsed(parsed: seq<byte>, delivered: seq<seq<byte>>, front: seq<byte>, payload: seq<byte>, o: Options)
    requires Usable(o) && Parse(parsed, o) == Frames(delivered, |parsed|) && Parse(front, o) == Frames([payload], |front|)
    ensures Parse(parsed + front, o) == Frames(delivered + [payload], |parsed| + |front|)
  {
    ParseInParts(parsed, front, o);
    assert parsed[|parsed|..] + front == front;
  }

  lemma FrontOfStream(stream: seq<byte>, unread: seq<byte>, incoming: seq<byte>, n: nat)
    requires n <= |unread| && |unread + incoming| <= |stream| && unread + incoming == stream[|stream| - |unread + incoming|..]
    ensures var done := |stream| - |unread + incoming|;
            && stream[..done + n] == stream[..done] + unread[..n]
            && stream[done + n..] == unread[n..] + incoming
  {
    var done := |stream| - |unread + incoming|;
    assert (unread + incoming)[..n] == unread[..n] && (unread + incoming)[n..] == unread[n..] + incoming;
    assert stream[done..done + n] == stream[done..][..n] && stream[done + n..] == stream[done..][n..];
    assert stream[..done + n] == stream[..done] + stream[done..done + n];
  }

  /** The bytes read so far parse to exactly the frames delivered; what is left is the rest of the stream. */
  ghost predicate AccountsFor(stream: seq<byte>, delivered: seq<seq<byte>>, rest: seq<byte>, o: Options)
    requires Usable(o)
  {
    && |rest| <= |stream| && rest == stream[|stream| - |rest|..]
    && Parse(stream[..|stream| - |rest|], o) == Frames(delivered, |stream| - |rest|)
  }

  /** Whatever sends the other end has made and whatever part of their bytes has arrived: as long as nothing
      is written behind a torn frame, a channel delivers the frames written in full, in order, from the first.
      Apart from empty frames these are the frames whose sends returned ok. */
  lemma DeliversWhatWasSent(sender: Channel, receiver: Channel)
    requires sender.Recorded() && receiver.Valid() && sender.sentBefore == [] && receiver.o == sender.o
    requires sender.o.maxPayload < Pow256(sender.o.prefixWidth) && receiver.stream <= sender.t.sent
    requires SendHistory.WellSent(sender.history, sender.o)
    ensures receiver.delivered <= SendHistory.Written(sender.history, sender.o)
    ensures SendHistory.NonEmpty(SendHistory.Written(sender.history, sender.o))
            == SendHistory.NonEmpty(SendHistory.Accepted(sender.history))
  {
    var h, o := sender.history, sender.o;
    assert sender.t.sent == SendHistory.Wire(h);
    var done := |receiver.stream| - |receiver.Unread() + receiver.t.incoming|;
    SendHistory.PartArrived(h, receiver.stream[..done], o);
    SendHistory.WrittenAreAccepted(h, o);
  }

  /** Once everything sent has arrived and no frame is ready any more, all of them have been delivered. */
  lemma DeliversAll(sender: Channel, receiver: Channel)
    requires sender.Recorded() && receiver.Valid() && sender.sentBefore == [] && receiver.o == sender.o
    requires sender.o.maxPayload < Pow256(sender.o.prefixWidth)
    requires SendHistory.WellSent(sender.history, sender.o)
    requires receiver.stream == sender.t.sent && receiver.t.incoming == [] && TryReadFrame(receiver.Unread(), receiver.o).NeedMore?
    ensures receiver.delivered == SendHistory.Written(sender.history, sender.o)
  {
    assert sender.t.sent == SendHistory.Wire(sender.history);
    SendHistory.AllArrived(sender.history, sender.o);
    DeliveredIsParsed(receiver);
  }

  /** A receiver at the end of its stream that finds no frame ready has delivered what the stream parses to. */
  lemma DeliveredIsParsed(receiver: Channel)
    requires receiver.Valid() && receiver.t.incoming == [] && TryReadFrame(receiver.Unread(), receiver.o).NeedMore?
    ensures Parse(receiver.stream, receiver.o) == Frames(receiver.delivered, |receiver.stream| - |receiver.Unread()|)
  {
    var stream, unread, o := receiver.stream, receiver.Unread(), receiver.o;
    assert unread + [] == unread;
    var parsed := stream[..|stream| - |unread|];
    assert parsed[|parsed|..] + unread == unread && parsed + unread == stream;
    ParseInParts(parsed, unread, o);
    assert receiver.delivered + [] == receiver.delivered;
  }

  /** For any sends at all: once everything has arrived and no frame is ready, the frames written in full have
      been delivered if and only if the bytes sent start with their encoding and hold no frame behind it. */
  lemma DeliversExactly(sender: Channel, receiver: Channel)
    requires sender.Recorded() && receiver.Valid() && sender.sentBefore == [] && receiver.o == sender.o
    requires sender.o.maxPayload < Pow256(sender.o.prefixWidth)
    requires receiver.stream == sender.t.sent && receiver.t.incoming == [] && TryReadFrame(receiver.Unread(), receiver.o).NeedMore?
    ensures var frames := SendHistory.Written(sender.history, sender.o);
            receiver.delivered == frames
            <==> EncodeAll(frames, sender.o) <= sender.t.sent
                 && TryReadFrame(sender.t.sent[|EncodeAll(frames, sender.o)|..], sender.o).NeedMore?
  {
    var h, o := sender.history, sender.o;
    assert sender.t.sent == SendHistory.Wire(h);
    DeliveredIsParsed(receiver);
    SendHistory.DeliveredExactly(h, o);
    ParsedIsEncoding(receiver.stream, o);
  }

  /** A frame reads the same from just its own bytes. */
  lemma FrontReads(s: seq<byte>, n: nat, o: Options)
    requires TryReadFrame(s, o).Frame? && TryReadFrame(s, o).consumed == n
    ensures TryReadFrame(s[..n], o) == TryReadFrame(s, o)
  {
    assert s[..n][..o.prefixWidth] == s[..o.prefixWidth];
    assert s[..n][o.prefixWidth..n] == s[o.prefixWidth..n];
  }

  /** The bytes of one frame parse to that frame. */
  lemma OneFrame(s: seq<byte>, o: Options)
    requires Usable(o)
    ensures TryReadFrame(s, o).Frame? && TryReadFrame(s, o).consumed == |s| ==>
              Parse(s, o) == Frames([TryReadFrame(s, o).payload], |s|)
  {
    if TryReadFrame(s, o).Frame? && TryReadFrame(s, o).consumed == |s| {
      assert s[|s|..] == [];
      assert TryReadFrame([], o).NeedMore?;
      assert Parse([], o) == Frames([], 0);
      assert [TryReadFrame(s, o).payload] + [] == [TryReadFrame(s, o).payload];
    }
  }
}
