/** The builder that writes into one buffer. */
module ContiguousBuilder {
  import opened Prelude
  import opened Bytes
  import opened Metadata
  import Codec
  import opened MessageFrames

  datatype EncodeStatus = EncodeOk | InvalidCall | BufferTooSmall

  method WriteAt(buffer: array<byte>, at: nat, bytes: seq<byte>)
    requires at + |bytes| <= buffer.Length
    modifies buffer
    ensures buffer[..] == old(buffer[..at]) + bytes + old(buffer[at + |bytes|..])
  {
    for k := 0 to |bytes|
      invariant buffer[..at] == old(buffer[..at])
      invariant buffer[at..at + k] == bytes[..k]
      invariant buffer[at + |bytes|..] == old(buffer[at + |bytes|..])
    {
      buffer[at + k] := bytes[k];
      assert buffer[at..at + k + 1] == buffer[at..at + k] + [bytes[k]];
    }
    assert buffer[..] == buffer[..at] + buffer[at..at + |bytes|] + buffer[at + |bytes|..];
  }

  lemma SliceInFront(all: seq<byte>, n: nat, from: nat, to: nat)
    requires from <= to <= n <= |all|
    ensures all[..n][from..to] == all[from..to]
  {
  }

  lemma PatchOfFront(all: seq<byte>, at: nat, bytes: seq<byte>, n: nat)
    requires at + |bytes| <= n <= |all|
    ensures (all[..at] + bytes + all[at + |bytes|..])[..n] == Codec.Patch(all[..n], at, bytes)
  {
  }

  class MessageBuilder {
    const p: Protocol
    const layout: Layout
    const buffer: array<byte>
    var offset: nat
    var next: nat
    var failed: bool
    var finalized: bool
    var starts: map<nat, nat>
    var ends: map<nat, nat>
    ghost var calls: seq<Call>

    /** The frame in the buffer. */
    ghost function Written(): Frame
      requires offset <= buffer.Length
      reads this, buffer
    {
      Frame(buffer[..offset], starts, ends, next)
    }

    ghost predicate Valid()
      reads this, buffer
    {
      && offset <= buffer.Length && Usable(layout)
      && (!failed && !finalized ==> Spelled(layout, calls) == Some(Written()))
      && (finalized ==> !failed && Spelled(layout, calls).Some?
                        && Finished(p, layout, Spelled(layout, calls).value) == Some(Written()))
    }

    constructor (p: Protocol, layout: Layout, buffer: array<byte>)
      requires Usable(layout)
      ensures Valid() && !failed && !finalized && calls == []
      ensures this.p == p && this.layout == layout && this.buffer == buffer
    {
      this.p, this.layout, this.buffer := p, layout, buffer;
      offset, next, failed, finalized, starts, ends, calls := 0, 0, false, false, map[], map[], [];
    }

    /** Appends bytes, if there is room. */
    method Append(bytes: seq<byte>) returns (ok: bool)
      requires offset <= buffer.Length
      modifies this`offset, this`failed, buffer
      ensures offset <= buffer.Length && ok == (old(offset) + |bytes| <= buffer.Length)
      ensures ok ==> buffer[..offset] == old(buffer[..offset]) + bytes && failed == old(failed)
      ensures !ok ==> failed
    {
      if |bytes| > buffer.Length - offset {
        failed := true;
        return false;
      }
      WriteAt(buffer, offset, bytes);
      offset := offset + |bytes|;
      return true;
    }

    /** Appends the bytes of a field. */
    method AppendField(id: nat, bytes: seq<byte>) returns (ok: bool)
      requires offset <= buffer.Length
      modifies this`offset, this`failed, this`starts, this`ends, buffer
      ensures offset <= buffer.Length
      ensures ok ==> Written() == Put(old(Written()), id, bytes) && failed == old(failed)
      ensures !ok ==> failed
    {
      var start := offset;
      ok := Append(bytes);
      if ok {
        starts, ends := starts[id := start], ends[id := offset];
      }
    }

    /** Fills in the fields before `target`: alignment, then a checksum's zeros, a constant or a fill. */
    method Advance(target: nat) returns (status: EncodeStatus)
      requires offset <= buffer.Length && target <= |layout.fields| && !failed
      modifies this`offset, this`next, this`failed, this`starts, this`ends, buffer
      ensures offset <= buffer.Length
      ensures status.EncodeOk? ==> AdvanceTo(layout, old(Written()), target) == Some(Written()) && !failed
      ensures !status.EncodeOk? ==> failed
    {
      if target <= next {
        return EncodeOk;
      }
      ghost var before := Written();
      var id := next;
      while id < target
        invariant offset <= buffer.Length && before.next <= id <= target && next == before.next && !failed
        invariant Advanced(layout, before, id, Written())
      {
        ghost var s := Written();
        status := FillIn(id);
        if !status.EncodeOk? {
          return;
        }
        AdvancedOne(layout, before, id, s, Written());
        id := id + 1;
      }
      next := target;
      return EncodeOk;
    }

    /** Fills in field `id`, which follows the fields written so far. */
    method FillIn(id: nat) returns (status: EncodeStatus)
      requires offset <= buffer.Length && id < |layout.fields| && !failed
      modifies this`offset, this`failed, this`starts, this`ends, buffer
      ensures offset <= buffer.Length
      ensures status.EncodeOk? ==> !failed && AutoBytes(layout, id).Some?
                                   && Written() == Put(Padded(layout, old(Written()), id), id, AutoBytes(layout, id).value)
      ensures !status.EncodeOk? ==> failed
    {
      var aligned := AlignUp(offset, layout.fields[id].alignment);
      var padded := Append(Repeat(0, aligned - offset));
      if !padded {
        return BufferTooSmall;
      }
      var bytes := AutoBytes(layout, id);
      if bytes.None? {
        failed := true;
        return InvalidCall;
      }
      var ok := AppendField(id, bytes.value);
      return if ok then EncodeOk else BufferTooSmall;
    }

    /** Sets one field, after filling in those before it. */
    method Set(call: Call) returns (status: EncodeStatus)
      requires Valid() && !finalized
      modifies this, buffer
      ensures Valid() && finalized == old(finalized)
      ensures status.EncodeOk? ==> !failed && calls == old(calls) + [call]
      ensures !status.EncodeOk? ==> calls == old(calls)
      ensures old(failed) ==> failed
    {
      if failed || !Accepts(layout, next, call) {
        return InvalidCall;
      }
      status := Advance(call.id);
      if !status.EncodeOk? {
        return;
      }
      var ok := AppendField(call.id, CallBytes(layout, call));
      if !ok {
        return BufferTooSmall;
      }
      next := call.id + 1;
      calls := calls + [call];
      assert calls[..|calls| - 1] == old(calls);
    }

    /** Fills in what is left and writes the checksums. */
    method Finalize() returns (status: EncodeStatus)
      requires Valid()
      modifies this, buffer
      ensures Valid() && calls == old(calls)
      ensures status.EncodeOk? ==> finalized
    {
      if failed {
        return InvalidCall;
      }
      if finalized {
        return EncodeOk;
      }
      status := Advance(|layout.fields|);
      if !status.EncodeOk? {
        return;
      }
      SpelledLaid(layout, calls);
      AdvanceLaid(layout, Spelled(layout, calls).value, |layout.fields|);
      var ok := WriteChecksums();
      if !ok {
        failed := true;
        return InvalidCall;
      }
      finalized := true;
    }

    /** Every field is in its place. */
    ghost predicate Ready()
      reads this, buffer
    {
      offset <= buffer.Length && Usable(layout) && Laid(layout, Written()) && next == |layout.fields|
    }

    /** The first `k` checksums are written over the advanced frame. */
    ghost predicate WrittenUpTo(k: nat, advanced: Frame)
      reads this, buffer
    {
      Ready() && k <= |layout.checksums| && ChecksummedUpTo(p, layout, advanced, k) == Some(Written())
    }

    /** Writes every checksum in turn. */
    method WriteChecksums() returns (ok: bool)
      requires Ready()
      modifies buffer
      ensures ok ==> ChecksummedUpTo(p, layout, old(Written()), |layout.checksums|) == Some(Written())
    {
      ghost var advanced := Written();
      for k := 0 to |layout.checksums|
        invariant WrittenUpTo(k, advanced)
      {
        ok := WriteChecksum(k, advanced);
        if !ok {
          return;
        }
      }
      return true;
    }

    /** Writes checksum `k` over the bytes in its range, which must not end before it starts. */
    method WriteChecksum(k: nat, ghost advanced: Frame) returns (ok: bool)
      requires WrittenUpTo(k, advanced) && k < |layout.checksums|
      modifies buffer
      ensures ok ==> WrittenUpTo(k + 1, advanced)
      ensures !ok ==> ChecksummedUpTo(p, layout, advanced, k + 1).None?
    {
      var bytes := ChecksumBytes(k);
      if bytes.None? {
        return false;
      }
      ghost var s, all := Written(), buffer[..];
      assert ChecksumWellFormed(layout, k) && LaidAt(layout, s, layout.checksums[k].fieldId);
      var at := starts[layout.checksums[k].fieldId];
      PatchOfFront(all, at, bytes.value, offset);
      ChecksummedLaid(p, layout, s, k);
      WriteAt(buffer, at, bytes.value);
      return true;
    }

    /** The bytes of checksum `k` over its range; none when the range ends before it starts. */
    method ChecksumBytes(k: nat) returns (bytes: Option<seq<byte>>)
      requires Ready() && k < |layout.checksums|
      ensures layout.checksums[k].fieldId < |layout.fields| && layout.checksums[k].fieldId in starts
      ensures starts[layout.checksums[k].fieldId] + layout.fields[layout.checksums[k].fieldId].width <= offset
      ensures bytes.Some? ==> |bytes.value| == layout.fields[layout.checksums[k].fieldId].width
      ensures Checksummed(p, layout, Written(), layout.checksums[k])
              == match bytes
                 case None => None
                 case Some(value) =>
                   Some(Written().(bytes := Codec.Patch(buffer[..offset], starts[layout.checksums[k].fieldId], value)))
    {
      assert ChecksumWellFormed(layout, k);
      var c := layout.checksums[k];
      assert LaidAt(layout, Written(), c.fieldId);
      AnchorsNoted(c);
      var from, to := Resolve(c.from), Resolve(c.to);
      if from > to || to > offset {
        return None;
      }
      SliceInFront(buffer[..], offset, from, to);
      return Some(ScalarBytes(layout.fields[c.fieldId], ChecksumValue(p, c.algorithm, buffer[from..to])));
    }

    lemma AnchorsNoted(c: Checksum)
      requires offset <= buffer.Length && Laid(layout, Written()) && next == |layout.fields|
      requires AnchorWellFormed(layout, c.from) && AnchorWellFormed(layout, c.to)
      ensures AnchorAt(c.from, Written()).Some? && AnchorAt(c.to, Written()).Some?
      ensures c.from.kind.FrameStart? || c.from.kind.FrameEnd? || LaidAt(layout, Written(), c.from.fieldId)
      ensures c.to.kind.FrameStart? || c.to.kind.FrameEnd? || LaidAt(layout, Written(), c.to.fieldId)
    {
    }

    /** Where an anchor points in the buffer. */
    function Resolve(a: Anchor): (r: nat)
      requires offset <= buffer.Length
      requires a.kind.FrameStart? || a.kind.FrameEnd? || LaidAt(layout, Written(), a.fieldId)
      reads this, buffer
      ensures AnchorAt(a, Written()) == Some(r)
    {
      match a.kind
      case FrameStart => 0
      case FrameEnd => offset
      case FieldStart => starts[a.fieldId]
      case BeforeSelf => starts[a.fieldId]
      case FieldEnd => ends[a.fieldId]
      case AfterSelf => ends[a.fieldId]
    }
  }
}
