/** The accumulators that turn received chunks into frames, and the frame iterator. */
module FrameDecoder {
  import opened Prelude
  import opened Bytes
  import opened Framing

  /** What has been received is the frames handed out and the unread bytes, which hold no complete frame. */
  ghost predicate Accounts(received: seq<byte>, delivered: seq<seq<byte>>, unread: seq<byte>, o: Options)
    requires Usable(o)
  {
    && |unread| <= |received| && unread == received[|received| - |unread|..]
    && Parse(received, o) == Frames(delivered, |received| - |unread|)
  }

  /** If the available bytes parse, their frames and their leftover account for what has been received. */
  ghost predicate CanFeed(received: seq<byte>, delivered: seq<seq<byte>>, available: seq<byte>, o: Options)
    requires Usable(o)
  {
    Parse(available, o).Frames? ==>
      Accounts(received, delivered + Parse(available, o).payloads, available[Parse(available, o).consumed..], o)
  }

  lemma FeedParse(received: seq<byte>, delivered: seq<seq<byte>>, unread: seq<byte>, data: seq<byte>, o: Options)
    requires Usable(o) && Accounts(received, delivered, unread, o)
    ensures Parse(received + data, o) == Then(delivered, |received| - |unread|, Parse(unread + data, o))
  {
    ParseInParts(received, data, o);
  }

  /** Feeding more bytes: the frames they complete are the frames of the unread bytes and the new ones. */
  lemma FeedAccounts(received: seq<byte>, delivered: seq<seq<byte>>, unread: seq<byte>, data: seq<byte>, o: Options)
    requires Usable(o) && Accounts(received, delivered, unread, o)
    ensures Parse(received + data, o).Refused? <==> Parse(unread + data, o).Refused?
    ensures CanFeed(received + data, delivered, unread + data, o)
  {
    FeedParse(received, delivered, unread, data, o);
    if Parse(unread + data, o).Frames? {
      EndOfJoin(received, unread, data, Parse(unread + data, o).consumed);
    }
  }

  /** The end of the bytes received, with new bytes behind it. */
  lemma EndOfJoin(received: seq<byte>, unread: seq<byte>, data: seq<byte>, n: nat)
    requires |unread| <= |received| && unread == received[|received| - |unread|..] && n <= |unread + data|
    ensures (received + data)[|received| - |unread| + n..] == (unread + data)[n..]
  {
    var consumed := |received| - |unread|;
    assert received == received[..consumed] + unread;
    assert received + data == received[..consumed] + (unread + data);
  }

  /** Reads frames from the front of the available bytes until none is complete. */
  method DrainAvailable(available: seq<byte>, o: Options) returns (frames: seq<seq<byte>>, consumed: nat, refused: bool)
    requires Usable(o)
    ensures refused <==> Parse(available, o).Refused?
    ensures !refused ==> Parse(available, o) == Frames(frames, consumed)
  {
    frames, consumed := [], 0;
    ThenNothing(Parse(available, o));
    assert available[0..] == available;
    while true
      invariant consumed <= |available|
      invariant Parse(available, o) == Then(frames, consumed, Parse(available[consumed..], o))
      decreases |available| - consumed
    {
      var r := TryReadFrame(available[consumed..], o);
      match r
      case NeedMore =>
        assert frames + [] == frames;
        return frames, consumed, false;
      case TooLarge =>
        return frames, consumed, true;
      case Frame(payload, n) =>
        assert available[consumed..][n..] == available[consumed + n..];
        ThenThen(frames, consumed, [payload], n, Parse(available[consumed + n..], o));
        frames, consumed := frames + [payload], consumed + n;
    }
  }

  /** Every complete frame in a buffer, in order. */
  method IterFrames(buffer: seq<byte>, o: Options) returns (frames: seq<seq<byte>>, refused: bool)
    requires Usable(o)
    ensures refused <==> Parse(buffer, o).Refused?
    ensures !refused ==> Parse(buffer, o).payloads == frames
  {
    var consumed;
    frames, consumed, refused := DrainAvailable(buffer, o);
  }

  /** Copies a stretch of an array to its front, lowest index first. */
  method CopyWithin(a: array<byte>, from: nat, to: nat)
    requires from <= to <= a.Length
    modifies a
    ensures a[..to - from] == old(a[from..to])
  {
    for k := 0 to to - from
      invariant a[..k] == old(a[from..from + k])
      invariant a[from + k..] == old(a[from + k..])
    {
      var b := a[from + k];
      assert b == old(a[from + k]);
      a[k] := b;
      assert a[..k + 1] == a[..k] + [b];
    }
  }

  /** Copies bytes into an array. */
  method SetAt(a: array<byte>, at: nat, data: seq<byte>)
    requires at + |data| <= a.Length
    modifies a
    ensures a[..at] == old(a[..at]) && a[at..at + |data|] == data
  {
    for k := 0 to |data|
      invariant a[..at] == old(a[..at]) && a[at..at + k] == data[..k]
    {
      a[at + k] := data[k];
      assert a[at..at + k + 1] == a[at..at + k] + [data[k]];
    }
  }

  /** The accumulator over a buffer that is compacted in place and grown by doubling. */
  class GrowingDecoder {
    const o: Options
    var buffer: array<byte>
    var readOffset: nat
    var writeOffset: nat
    ghost var received: seq<byte>
    ghost var delivered: seq<seq<byte>>

    ghost predicate InBounds()
      reads this, buffer
    {
      readOffset <= writeOffset <= buffer.Length
    }

    /** The bytes not yet turned into frames. */
    ghost function Unread(): seq<byte>
      requires InBounds()
      reads this, buffer
    {
      buffer[readOffset..writeOffset]
    }

    ghost predicate Valid()
      reads this, buffer
    {
      Usable(o) && InBounds() && Accounts(received, delivered, Unread(), o)
    }

    constructor (o: Options)
      requires Usable(o)
      ensures Valid() && this.o == o && received == [] && delivered == [] && fresh(buffer)
    {
      this.o := o;
      buffer := new byte[0];
      readOffset, writeOffset, received, delivered := 0, 0, [], [];
    }

    /** Appends bytes: behind the unread ones if there is room, after moving those to the front if that
        makes room, else in a larger buffer. */
    method Append(data: seq<byte>)
      requires InBounds()
      modifies this`buffer, this`readOffset, this`writeOffset, buffer
      ensures InBounds() && Unread() == old(Unread()) + data
      ensures buffer == old(buffer) || fresh(buffer)
    {
      if data == [] {
        return;
      }
      var unreadLength := writeOffset - readOffset;
      if buffer.Length - writeOffset < |data| {
        var required := unreadLength + |data|;
        if readOffset > 0 && buffer.Length >= required {
          CopyWithin(buffer, readOffset, writeOffset);
        } else {
          var capacity := if buffer.Length == 0 then required else buffer.Length;
          while capacity < required
            invariant capacity > 0
            decreases required - capacity
          {
            capacity := if 2 * capacity >= required then 2 * capacity else required;
          }
          var next := new byte[capacity](_ => 0);
          SetAt(next, 0, buffer[readOffset..writeOffset]);
          buffer := next;
        }
        readOffset, writeOffset := 0, unreadLength;
      }
      assert buffer[readOffset..writeOffset] == old(buffer[readOffset..writeOffset]);
      AppendAt(data);
    }

    method AppendAt(data: seq<byte>)
      requires InBounds() && writeOffset + |data| <= buffer.Length
      modifies this`writeOffset, buffer
      ensures InBounds() && Unread() == old(Unread()) + data
    {
      SetAt(buffer, writeOffset, data);
      assert buffer[readOffset..writeOffset] == buffer[..writeOffset][readOffset..];
      writeOffset := writeOffset + |data|;
      assert buffer[readOffset..writeOffset] == buffer[readOffset..old(writeOffset)] + buffer[old(writeOffset)..writeOffset];
    }

    /** Feeds received bytes and returns the frames they complete; a frame that is too large is refused. */
    method Feed(data: seq<byte>) returns (r: Option<seq<seq<byte>>>)
      requires Valid()
      modifies this, buffer
      ensures r.None? <==> Parse(old(received) + data, o).Refused?
      ensures r.Some? ==> Valid() && received == old(received) + data && delivered == old(delivered) + r.value
    {
      FeedAccounts(received, delivered, Unread(), data, o);
      if readOffset == writeOffset {
        assert Unread() + data == data;
        r := FeedEmpty(data);
      } else {
        r := FeedBehind(data);
      }
    }

    /** With nothing unread the new bytes are parsed where they are; only what is left over is kept. */
    method FeedEmpty(data: seq<byte>) returns (r: Option<seq<seq<byte>>>)
      requires Valid() && readOffset == writeOffset
      requires CanFeed(received + data, delivered, data, o)
      modifies this, buffer
      ensures r.None? <==> Parse(data, o).Refused?
      ensures r.Some? ==> Valid() && received == old(received) + data && delivered == old(delivered) + r.value
    {
      readOffset, writeOffset := 0, 0;
      var frames, consumed, refused := DrainAvailable(data, o);
      if refused {
        return None;
      }
      if consumed < |data| {
        Append(data[consumed..]);
      }
      received, delivered := received + data, delivered + frames;
      assert Unread() == data[consumed..];
      return Some(frames);
    }

    method FeedBehind(data: seq<byte>) returns (r: Option<seq<seq<byte>>>)
      requires Valid()
      requires CanFeed(received + data, delivered, Unread() + data, o)
      modifies this, buffer
      ensures r.None? <==> Parse(old(Unread()) + data, o).Refused?
      ensures r.Some? ==> Valid() && received == old(received) + data && delivered == old(delivered) + r.value
    {
      Append(data);
      var frames, consumed, refused := DrainAvailable(buffer[readOffset..writeOffset], o);
      if refused {
        return None;
      }
      ghost var all := Unread();
      readOffset := readOffset + consumed;
      assert Unread() == all[consumed..];
      if readOffset == writeOffset {
        readOffset, writeOffset := 0, 0;
      }
      received, delivered := received + data, delivered + frames;
      return Some(frames);
    }
  }

  /** Consumed bytes are dropped once they make up this fraction of the buffer. */
  const COMPACT_RATIO: nat := 2

  /** The accumulator over a growing byte string whose consumed front is cut off now and then. */
  class CuttingDecoder {
    const o: Options
    var buffer: seq<byte>
    var readOffset: nat
    var writeOffset: nat
    ghost var received: seq<byte>
    ghost var delivered: seq<seq<byte>>

    ghost predicate Valid()
      reads this
    {
      Usable(o) && readOffset <= writeOffset == |buffer| && Accounts(received, delivered, buffer[readOffset..writeOffset], o)
    }

    constructor (o: Options)
      requires Usable(o)
      ensures Valid() && this.o == o && received == [] && delivered == []
    {
      this.o := o;
      buffer, readOffset, writeOffset, received, delivered := [], 0, 0, [], [];
    }

    method Append(data: seq<byte>)
      requires readOffset <= writeOffset == |buffer|
      modifies this`buffer, this`readOffset, this`writeOffset
      ensures readOffset <= writeOffset == |buffer|
      ensures buffer[readOffset..writeOffset] == old(buffer[readOffset..writeOffset]) + data
    {
      if data == [] {
        return;
      }
      var unread := writeOffset - readOffset;
      if readOffset > 0 && readOffset * COMPACT_RATIO >= |buffer| {
        buffer := buffer[readOffset..];
        readOffset, writeOffset := 0, unread;
      }
      buffer := buffer + data;
      writeOffset := writeOffset + |data|;
    }

    /** Feeds received bytes and returns the frames they complete; a frame that is too large is refused. */
    method Feed(data: seq<byte>) returns (r: Option<seq<seq<byte>>>)
      requires Valid()
      modifies this
      ensures r.None? <==> Parse(old(received) + data, o).Refused?
      ensures r.Some? ==> Valid() && received == old(received) + data && delivered == old(delivered) + r.value
    {
      FeedAccounts(received, delivered, buffer[readOffset..writeOffset], data, o);
      Append(data);
      var frames, consumed, refused := DrainAvailable(buffer[readOffset..writeOffset], o);
      if refused {
        return None;
      }
      received, delivered := received + data, delivered + frames;
      Advance(consumed);
      return Some(frames);
    }

    /** Moves past consumed bytes; an empty buffer is dropped. */
    method Advance(consumed: nat)
      requires Usable(o) && readOffset + consumed <= writeOffset == |buffer|
      requires Accounts(received, delivered, buffer[readOffset..writeOffset][consumed..], o)
      modifies this`buffer, this`readOffset, this`writeOffset
      ensures Valid()
    {
      assert buffer[readOffset..writeOffset][consumed..] == buffer[readOffset + consumed..writeOffset];
      readOffset := readOffset + consumed;
      if readOffset == writeOffset {
        buffer, readOffset, writeOffset := [], 0, 0;
      }
    }
  }
}
