/** The endpoint operations of one ring direction, as they run when the other side stands still. Every
    statement is a step of `ShmRing`, so the operations keep what all interleavings keep. */
module ShmRingTransport {
  import opened Prelude
  import opened Bytes
  import opened ShmRing

  datatype WriteResult = Wrote(count: nat) | WriteWouldBlock | FrameTooLarge

  datatype ReadResult = Got(bytes: seq<byte>) | ReadWouldBlock | ReadRefused

  datatype LeaseResult = Lease(slot: nat, length: nat) | NothingReady | LeaseRefused

  class RingDirection {
    const config: Config
    const payload: array<byte>
    const lengths: array<nat>
    var head: nat
    var tail: nat
    var readable: nat
    var writable: nat
    var readSlot: nat
    var readOffset: nat
    var readActive: bool
    var leased: bool
    var leaseLength: nat
    ghost var written: seq<seq<byte>>
    ghost var consumed: seq<seq<byte>>
    ghost var partial: seq<byte>

    /** The state of the ring with both sides at the given points. */
    ghost function At(writer: WriterPc, reader: ReaderPc): State
      reads this, payload, lengths
    {
      State(head, tail, lengths[..], payload[..], readable, writable, writer, reader,
            readSlot, readOffset, readActive, leased, leaseLength, written, consumed, partial)
    }

    ghost predicate Valid()
      reads this, payload, lengths
    {
      Usable(config) && Inv(config, At(WriterIdle, ReaderIdle))
    }

    constructor (c: Config)
      requires Usable(c)
      ensures Valid() && config == c && written == [] && consumed == [] && !readActive && !leased
      ensures fresh(payload) && fresh(lengths)
    {
      config := c;
      payload := new byte[c.slotCount * c.slotSize](_ => 0);
      lengths := new nat[c.slotCount](_ => 0);
      head, tail, readable, writable := 0, 0, 0, 0;
      readSlot, readOffset, readActive, leased, leaseLength := 0, 0, false, false, 0;
      written, consumed, partial := [], [], [];
    }

    /** The ring stands as it does in the middle of the given operations. */
    ghost predicate Holds(writer: WriterPc, reader: ReaderPc)
      reads this, payload, lengths
    {
      Usable(config) && Inv(config, At(writer, reader))
    }

    // ----- Writing -----

    /** Writes one frame, if a slot is free and the frame fits. */
    method Write(source: seq<byte>) returns (r: WriteResult)
      requires Valid()
      modifies this`tail, this`readable, this`written, payload, lengths
      ensures Valid()
      ensures match r
              case WriteWouldBlock => |old(written)| - |consumed| == config.slotCount - 1 && written == old(written)
              case FrameTooLarge =>
                |old(written)| - |consumed| < config.slotCount - 1 && |source| > config.slotSize && written == old(written)
              case Wrote(n) =>
                && |old(written)| - |consumed| < config.slotCount - 1
                && n == |source| <= config.slotSize && written == old(written) + [source]
    {
      var space := HasSpace(source);
      if !space {
        return WriteWouldBlock;
      }
      if |source| > config.slotSize {
        return FrameTooLarge;
      }
      CopyIn(source);
      Publish(source);
      return Wrote(|source|);
    }

    method HasSpace(source: seq<byte>) returns (space: bool)
      requires Valid()
      ensures space <==> |written| - |consumed| < config.slotCount - 1
      ensures space && |source| <= config.slotSize ==> Holds(WriteCopy(source, tail, 0), ReaderIdle)
    {
      space := (tail + 1) % config.slotCount != head;
      ghost var s := At(WriteLoadTail(source, head, |consumed|), ReaderIdle);
      NoSpaceSeen(config, s, head, |consumed|);
      WriterKeeps(config, At(WriterIdle, ReaderIdle), ShmRing.Write(source), At(WriteLoadHead(source), ReaderIdle));
      WriterKeeps(config, At(WriteLoadHead(source), ReaderIdle), WriterNext, s);
      if space && |source| <= config.slotSize {
        WriterKeeps(config, s, WriterNext, At(WriteReloadTail(source), ReaderIdle));
        WriterKeeps(config, At(WriteReloadTail(source), ReaderIdle), WriterNext, At(WriteCopy(source, tail, 0), ReaderIdle));
      }
    }

    method CopyIn(source: seq<byte>)
      requires Holds(WriteCopy(source, tail, 0), ReaderIdle)
      modifies payload
      ensures Holds(WriteStoreLength(source, tail), ReaderIdle)
    {
      var copied := 0;
      while copied < |source|
        invariant copied <= |source| && Holds(WriteCopy(source, tail, copied), ReaderIdle)
      {
        CopyByte(source, copied);
        copied := copied + 1;
      }
      WriterKeeps(config, At(WriteCopy(source, tail, copied), ReaderIdle), WriterNext, At(WriteStoreLength(source, tail), ReaderIdle));
    }

    method CopyByte(source: seq<byte>, copied: nat)
      requires copied < |source| && Holds(WriteCopy(source, tail, copied), ReaderIdle)
      modifies payload
      ensures Holds(WriteCopy(source, tail, copied + 1), ReaderIdle)
    {
      ghost var s := At(WriteCopy(source, tail, copied), ReaderIdle);
      SlotInside(config, s, tail, |source|);
      payload[tail * config.slotSize + copied] := source[copied];
      WriterKeeps(config, s, WriterNext, At(WriteCopy(source, tail, copied + 1), ReaderIdle));
    }

    method Publish(source: seq<byte>)
      requires Holds(WriteStoreLength(source, tail), ReaderIdle)
      modifies this`tail, this`readable, this`written, lengths
      ensures Valid() && written == old(written) + [source]
    {
      var slot := tail;
      ghost var s := At(WriteStoreLength(source, slot), ReaderIdle);
      lengths[slot] := |source|;
      WriterKeeps(config, s, WriterNext, At(WriteStoreTail(source, slot), ReaderIdle));
      s := At(WriteStoreTail(source, slot), ReaderIdle);
      tail := (slot + 1) % config.slotCount;
      written := written + [source];
      WriterKeeps(config, s, WriterNext, At(WriteNotify, ReaderIdle));
      s := At(WriteNotify, ReaderIdle);
      readable := Notified(readable);
      WriterKeeps(config, s, WriterNext, At(WriterIdle, ReaderIdle));
    }

    // ----- Reading -----

    method HasData() returns (data: bool)
      requires Valid()
      ensures data <==> |written| - |consumed| > 0
    {
      DataSeen(config, At(WriterIdle, ReaderIdle));
      data := head != tail;
    }

    /** Copies out as much of the frame at the head as there is room for; the last part frees the slot. */
    method Read(capacity: nat) returns (r: ReadResult)
      requires Valid()
      modifies this`head, this`readable, this`writable, this`readSlot, this`readOffset, this`readActive, this`consumed, this`partial
      ensures Valid() && leased == old(leased)
      ensures match r
              case ReadRefused => leased && consumed == old(consumed)
              case ReadWouldBlock => !leased && |written| == |consumed| && consumed == old(consumed)
              case Got(bytes) =>
                && !leased && |old(consumed)| < |written|
                && HandsOver(old(consumed), if old(readActive) then old(partial) else [], written[|old(consumed)|], capacity, bytes)
    {
      if leased {
        return ReadRefused;
      }
      if !readActive {
        var data := HasData();
        if !data {
          return ReadWouldBlock;
        }
        Claim(capacity);
      } else {
        ReaderKeeps(config, At(WriterIdle, ReaderIdle), ShmRing.Read(capacity), At(WriterIdle, ReadLoadLength(capacity)));
      }
      var bytes := CopyOut(capacity);
      if readOffset == lengths[readSlot] {
        Finish();
      }
      return Got(bytes);
    }

    /** The bytes handed over continue the frame, as many as fit, and the frame is done when they end it. */
    ghost predicate HandsOver(before: seq<seq<byte>>, part: seq<byte>, frame: seq<byte>, capacity: nat, bytes: seq<byte>)
      reads this
    {
      && part + bytes <= frame
      && (|bytes| == capacity || part + bytes == frame)
      && |bytes| <= capacity
      && (if part + bytes == frame then !readActive && consumed == before + [frame]
          else readActive && partial == part + bytes && consumed == before)
    }

    method Claim(capacity: nat)
      requires Valid() && !readActive && !leased && |written| > |consumed|
      modifies this`readSlot, this`readOffset, this`readActive, this`partial
      ensures Holds(WriterIdle, ReadLoadLength(capacity)) && readActive && partial == []
    {
      ghost var s := At(WriterIdle, ReaderIdle);
      DataSeen(config, s);
      ReaderKeeps(config, s, ShmRing.Read(capacity), At(WriterIdle, ReadLoadHead(capacity)));
      ReaderKeeps(config, At(WriterIdle, ReadLoadHead(capacity)), ReaderNext, At(WriterIdle, ReadLoadTail(capacity, head)));
      ReaderKeeps(config, At(WriterIdle, ReadLoadTail(capacity, head)), ReaderNext, At(WriterIdle, ReadClaim(capacity)));
      s := At(WriterIdle, ReadClaim(capacity));
      readSlot, readOffset, readActive, partial := head, 0, true, [];
      ReaderKeeps(config, s, ReaderNext, At(WriterIdle, ReadLoadLength(capacity)));
    }

    /** Copies the next bytes of the frame being read. */
    method CopyOut(capacity: nat) returns (got: seq<byte>)
      requires Holds(WriterIdle, ReadLoadLength(capacity)) && readActive
      modifies this`readOffset, this`partial
      ensures |consumed| < |written| && readSlot < lengths.Length && lengths[readSlot] == |written[|consumed|]|
      ensures partial == old(partial) + got && partial <= written[|consumed|] && |got| <= capacity
      ensures |got| == capacity || partial == written[|consumed|]
      ensures readOffset == |partial|
      ensures Holds(WriterIdle, if partial == written[|consumed|] then ReadStoreHead else ReaderIdle)
    {
      var length, wanted := LoadLength(capacity);
      got := [];
      while |got| < wanted
        invariant |got| <= wanted && Holds(WriterIdle, ReadCopy(length, wanted, got))
        invariant partial == old(partial) && readOffset == old(readOffset)
      {
        var b := NextByte(length, wanted, got);
        got := got + [b];
      }
      EndCopy(length, wanted, got);
      assert readOffset == length ==> written[|consumed|][..readOffset] == written[|consumed|];
    }

    method LoadLength(capacity: nat) returns (length: nat, wanted: nat)
      requires Holds(WriterIdle, ReadLoadLength(capacity)) && readActive
      ensures |consumed| < |written| && readSlot < lengths.Length && length == lengths[readSlot] == |written[|consumed|]|
      ensures readOffset <= length && wanted == (if length - readOffset <= capacity then length - readOffset else capacity)
      ensures Holds(WriterIdle, ReadCopy(length, wanted, []))
    {
      ghost var s := At(WriterIdle, ReadLoadLength(capacity));
      assert InSlot(config, s, |consumed|);
      length := lengths[readSlot];
      var remaining := length - readOffset;
      wanted := if remaining <= capacity then remaining else capacity;
      ReaderKeeps(config, s, ReaderNext, At(WriterIdle, ReadCopy(length, wanted, [])));
    }

    method NextByte(length: nat, wanted: nat, got: seq<byte>) returns (b: byte)
      requires Holds(WriterIdle, ReadCopy(length, wanted, got)) && |got| < wanted
      ensures Holds(WriterIdle, ReadCopy(length, wanted, got + [b]))
    {
      ghost var s := At(WriterIdle, ReadCopy(length, wanted, got));
      HeadByte(config, s, readOffset + |got|);
      b := payload[readSlot * config.slotSize + readOffset + |got|];
      ReaderKeeps(config, s, ReaderNext, At(WriterIdle, ReadCopy(length, wanted, got + [b])));
    }

    method EndCopy(length: nat, wanted: nat, got: seq<byte>)
      requires Holds(WriterIdle, ReadCopy(length, wanted, got)) && |got| == wanted
      modifies this`readOffset, this`partial
      ensures |consumed| < |written| && length == |written[|consumed|]|
      ensures readOffset == old(readOffset) + wanted == |partial| <= length
      ensures partial == old(partial) + got && partial == written[|consumed|][..readOffset]
      ensures Holds(WriterIdle, if readOffset == length then ReadStoreHead else ReaderIdle)
    {
      ghost var s := At(WriterIdle, ReadCopy(length, wanted, got));
      readOffset := readOffset + |got|;
      partial := partial + got;
      ghost var s' := At(WriterIdle, if readOffset == length then ReadStoreHead else ReaderIdle);
      ReaderKeeps(config, s, ReaderNext, s');
    }

    /** Frees the slot of a frame read to its end. */
    method Finish()
      requires Holds(WriterIdle, ReadStoreHead) && readActive && !leased
      modifies this`head, this`readable, this`writable, this`readOffset, this`readActive, this`consumed, this`partial
      ensures Valid() && !readActive && consumed == old(consumed) + [old(partial)]
    {
      ghost var s := At(WriterIdle, ReadStoreHead);
      head, readActive, readOffset := (readSlot + 1) % config.slotCount, false, 0;
      consumed, partial := consumed + [partial], [];
      ReaderKeeps(config, s, ReaderNext, At(WriterIdle, ReadNotify));
      NotifyAndDrain();
    }

    /** Signals the freed slot, and takes back the data signal when nothing is left to read. */
    method NotifyAndDrain()
      requires Holds(WriterIdle, ReadNotify)
      modifies this`readable, this`writable
      ensures Valid()
    {
      ghost var s := At(WriterIdle, ReadNotify);
      writable := Notified(writable);
      ReaderKeeps(config, s, ReaderNext, At(WriterIdle, DrainLoadHead));
      ReaderKeeps(config, At(WriterIdle, DrainLoadHead), ReaderNext, At(WriterIdle, DrainLoadTail(head)));
      s := At(WriterIdle, DrainLoadTail(head));
      if head == tail {
        ReaderKeeps(config, s, ReaderNext, At(WriterIdle, Drain));
        s := At(WriterIdle, Drain);
        if readable > 0 {
          readable := 0;
          ReaderKeeps(config, s, ReaderNext, At(WriterIdle, Drain));
          s := At(WriterIdle, Drain);
        }
        ReaderKeeps(config, s, ReaderNext, At(WriterIdle, ReaderIdle));
      } else {
        ReaderKeeps(config, s, ReaderNext, At(WriterIdle, ReaderIdle));
      }
    }

    // ----- Leasing -----

    /** Leases the frame at the head in place. */
    method TryAcquire() returns (r: LeaseResult)
      requires Valid()
      modifies this`readSlot, this`leased, this`leaseLength
      ensures Valid()
      ensures match r
              case LeaseRefused => (readActive || old(leased)) && leased == old(leased)
              case NothingReady => !readActive && !leased && |written| == |consumed|
              case Lease(slot, length) =>
                && leased && !readActive && slot == head && |consumed| < |written|
                && slot * config.slotSize + length <= payload.Length
                && payload[slot * config.slotSize..slot * config.slotSize + length] == written[|consumed|]
    {
      if readActive || leased {
        return LeaseRefused;
      }
      ghost var s := At(WriterIdle, ReaderIdle);
      DataSeen(config, s);
      if head == tail {
        return NothingReady;
      }
      ReaderKeeps(config, s, Acquire, At(WriterIdle, AcquireLoadHead));
      ReaderKeeps(config, At(WriterIdle, AcquireLoadHead), ReaderNext, At(WriterIdle, AcquireLoadTail(head)));
      ReaderKeeps(config, At(WriterIdle, AcquireLoadTail(head)), ReaderNext, At(WriterIdle, AcquireReloadHead));
      ReaderKeeps(config, At(WriterIdle, AcquireReloadHead), ReaderNext, At(WriterIdle, AcquireLoadLength(head)));
      s := At(WriterIdle, AcquireLoadLength(head));
      assert InSlot(config, s, |consumed|);
      leased, readSlot, leaseLength := true, head, lengths[head];
      ReaderKeeps(config, s, ReaderNext, At(WriterIdle, ReaderIdle));
      return Lease(head, lengths[head]);
    }

    /** Gives the leased slot back; a lease of another slot is refused. */
    method ReleaseLease(token: nat) returns (released: bool)
      requires Valid()
      modifies this`head, this`leased, this`readable, this`writable, this`consumed
      ensures Valid()
      ensures released <==> old(leased) && token == old(head)
      ensures if released then !leased && |old(consumed)| < |written| && consumed == old(consumed) + [written[|old(consumed)|]]
              else leased == old(leased) && consumed == old(consumed) && head == old(head)
    {
      if !leased || token != head {
        return false;
      }
      ghost var s := At(WriterIdle, ReaderIdle);
      ReaderKeeps(config, s, Release(token), At(WriterIdle, ReleaseLoadHead(token)));
      ReaderKeeps(config, At(WriterIdle, ReleaseLoadHead(token)), ReaderNext, At(WriterIdle, ReleaseStoreHead(head)));
      s := At(WriterIdle, ReleaseStoreHead(head));
      assert InSlot(config, s, |consumed|);
      ghost var frame := SlotBytes(config, s, head, leaseLength);
      head, leased := (head + 1) % config.slotCount, false;
      consumed := consumed + [frame];
      ReaderKeeps(config, s, ReaderNext, At(WriterIdle, ReadNotify));
      NotifyAndDrain();
      return true;
    }
  }
}
