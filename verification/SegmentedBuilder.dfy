/** The builder that collects a frame in segments, without copying attached payloads. */
module SegmentedBuilder {
  import opened Prelude
  import opened Bytes
  import opened Bits
  import opened Metadata
  import Checksums
  import Codec
  import opened MessageFrames
  import opened ContiguousBuilder
  import opened Segments

  // ----- Checksums over chunks -----

  lemma Xor8Grows(data: seq<byte>, b: byte)
    ensures Checksums.Xor8(data + [b]) == ValueOf(Xor(BitsOf(Checksums.Xor8(data), 8), BitsOf(b, 8)))
  {
    assert (data + [b])[..|data|] == data;
  }

  lemma TotalGrows(data: seq<byte>, b: byte)
    ensures Checksums.Total(data + [b]) == Checksums.Total(data) + b
  {
    assert (data + [b])[..|data|] == data;
  }

  /** Xors the bytes of one more chunk. */
  method XorChunk(ghost before: seq<byte>, start: nat, chunk: seq<byte>) returns (value: nat)
    requires start == Checksums.Xor8(before)
    ensures value == Checksums.Xor8(before + chunk)
  {
    value := start;
    assert before + chunk[..0] == before;
    for j := 0 to |chunk|
      invariant value == Checksums.Xor8(before + chunk[..j])
    {
      Xor8Grows(before + chunk[..j], chunk[j]);
      assert before + chunk[..j + 1] == before + chunk[..j] + [chunk[j]];
      value := ValueOf(Xor(BitsOf(value, 8), BitsOf(chunk[j], 8)));
    }
    assert chunk[..|chunk|] == chunk;
  }

  /** Adds up the bytes of one more chunk. */
  method AddChunk(ghost before: seq<byte>, start: nat, chunk: seq<byte>) returns (sum: nat)
    requires start == Checksums.Total(before)
    ensures sum == Checksums.Total(before + chunk)
  {
    sum := start;
    assert before + chunk[..0] == before;
    for j := 0 to |chunk|
      invariant sum == Checksums.Total(before + chunk[..j])
    {
      TotalGrows(before + chunk[..j], chunk[j]);
      assert before + chunk[..j + 1] == before + chunk[..j] + [chunk[j]];
      sum := sum + chunk[j];
    }
    assert chunk[..|chunk|] == chunk;
  }

  /** Xors the bytes of all chunks. */
  method XorChunks(chunks: seq<seq<byte>>) returns (value: nat)
    ensures value == Checksums.Xor8(Flatten(chunks))
  {
    value := 0;
    for i := 0 to |chunks|
      invariant value == Checksums.Xor8(Flatten(chunks[..i]))
    {
      assert chunks[..i + 1][..i] == chunks[..i];
      value := XorChunk(Flatten(chunks[..i]), value, chunks[i]);
    }
    assert chunks[..|chunks|] == chunks;
  }

  /** Adds up the bytes of all chunks. */
  method SumChunks(chunks: seq<seq<byte>>) returns (sum: nat)
    ensures sum == Checksums.Total(Flatten(chunks))
  {
    sum := 0;
    for i := 0 to |chunks|
      invariant sum == Checksums.Total(Flatten(chunks[..i]))
    {
      assert chunks[..i + 1][..i] == chunks[..i];
      sum := AddChunk(Flatten(chunks[..i]), sum, chunks[i]);
    }
    assert chunks[..|chunks|] == chunks;
  }

  /** A checksum over scattered chunks: incrementally where the algorithm allows it, over the only chunk
      when there is one, and over a copy otherwise. */
  method SegmentedChecksum(p: Protocol, algorithm: string, chunks: seq<seq<byte>>) returns (value: nat)
    ensures value == ChecksumValue(p, algorithm, Flatten(chunks))
  {
    if algorithm == "xor8" {
      value := XorChunks(chunks);
    } else if algorithm == "sum16" {
      var sum := SumChunks(chunks);
      value := sum % 0x1_0000;
    } else if |chunks| == 1 {
      assert chunks[..0] == [] && Flatten(chunks) == [] + chunks[0] == chunks[0];
      value := ChecksumValue(p, algorithm, chunks[0]);
    } else {
      var scratch: seq<byte> := [];
      for i := 0 to |chunks|
        invariant scratch == Flatten(chunks[..i])
      {
        assert chunks[..i + 1][..i] == chunks[..i];
        scratch := scratch + chunks[i];
      }
      assert chunks[..|chunks|] == chunks;
      value := ChecksumValue(p, algorithm, scratch);
    }
  }

  // ----- The builder -----

  /** Where a call's payload is to be kept: copied into scratch, or borrowed where it is. */
  datatype Keeping = Copy | Attach

  /** Whether the given way of keeping a payload is open to the field. */
  predicate MayKeep(l: Layout, call: Call, keeping: Keeping)
    requires call.id < |l.fields|
  {
    keeping.Attach? ==> call.SetPayload? && l.fields[call.id].dynamicSize && !l.fields[call.id].kind.Nested?
  }

  class SegmentedMessageBuilder {
    const p: Protocol
    const layout: Layout
    const scratch: array<byte>
    const maxSegments: nat
    var segments: seq<Segment>
    var scratchOffset: nat
    var totalSize: nat
    var next: nat
    var failed: bool
    var finalized: bool
    var starts: map<nat, nat>
    var ends: map<nat, nat>
    var segmentOf: map<nat, nat>
    ghost var calls: seq<Call>

    /** The segments tile the scratch in use and add up to the total. */
    ghost predicate Tiled()
      reads this
    {
      && InOrder(segments) && OwnedEnd(segments) == scratchOffset <= scratch.Length
      && Total(segments) == totalSize && |segments| <= maxSegments
    }

    /** The frame the segments hold. */
    ghost function Written(): Frame
      requires Tiled()
      reads this, scratch
    {
      Frame(Content(scratch[..], segments), starts, ends, next)
    }

    /** Field `id` fills its segment; a counter's is in scratch. */
    ghost predicate Placed(id: nat)
      reads this
    {
      && id in segmentOf && segmentOf[id] < |segments| && id in starts && id in ends && id < |layout.fields|
      && starts[id] == Segments.Total(segments[..segmentOf[id]])
      && ends[id] == starts[id] + segments[segmentOf[id]].Size()
      && (layout.fields[id].Counter() ==> segments[segmentOf[id]].Owned?)
    }

    ghost predicate AllPlaced()
      reads this
    {
      forall id: nat | id in starts :: Placed(id)
    }

    ghost predicate Valid()
      reads this, scratch
    {
      && Tiled() && AllPlaced() && Usable(layout)
      && next <= |layout.fields| && 2 * |layout.fields| <= maxSegments && (!failed ==> |segments| <= 2 * next)
      && (!failed && !finalized ==> Spelled(layout, calls) == Some(Written()))
      && (finalized ==> !failed && Spelled(layout, calls).Some?
                        && Finished(p, layout, Spelled(layout, calls).value) == Some(Written()))
    }

    constructor (p: Protocol, layout: Layout, scratch: array<byte>, maxSegments: nat)
      requires Usable(layout) && 2 * |layout.fields| <= maxSegments
      ensures Valid() && !failed && !finalized && calls == []
      ensures this.p == p && this.layout == layout && this.scratch == scratch
    {
      this.p, this.layout, this.scratch, this.maxSegments := p, layout, scratch, maxSegments;
      segments, scratchOffset, totalSize, next, failed, finalized := [], 0, 0, 0, false, false;
      starts, ends, segmentOf, calls := map[], map[], map[], [];
    }

    /** Appends bytes copied into scratch, if there is room. */
    method AppendOwned(bytes: seq<byte>) returns (ok: bool)
      requires Tiled() && AllPlaced()
      modifies this`segments, this`scratchOffset, this`totalSize, this`failed, scratch
      ensures Tiled() && AllPlaced()
      ensures ok ==> Content(scratch[..], segments) == old(Content(scratch[..], segments)) + bytes && failed == old(failed)
      ensures ok ==> segments == old(segments) + [Owned(old(scratchOffset), |bytes|)]
      ensures !ok ==> failed && segments == old(segments)
    {
      if |bytes| > scratch.Length - scratchOffset || |segments| >= maxSegments {
        failed := true;
        return false;
      }
      ghost var before, was := scratch[..], segments;
      WriteAt(scratch, scratchOffset, bytes);
      segments := segments + [Owned(scratchOffset, |bytes|)];
      assert segments[..|segments| - 1] == was;
      SameContent(before, scratch[..], was);
      scratchOffset := scratchOffset + |bytes|;
      totalSize := totalSize + |bytes|;
      StillPlaced(was);
      return true;
    }

    /** Appends bytes where they are, if there is a segment left. */
    method AppendBorrowed(bytes: seq<byte>) returns (ok: bool)
      requires Tiled() && AllPlaced()
      modifies this`segments, this`totalSize, this`failed
      ensures Tiled() && AllPlaced()
      ensures ok ==> Content(scratch[..], segments) == old(Content(scratch[..], segments)) + bytes && failed == old(failed)
      ensures ok ==> segments == old(segments) + [Borrowed(bytes)]
      ensures !ok ==> failed && segments == old(segments)
    {
      if |segments| >= maxSegments {
        failed := true;
        return false;
      }
      ghost var was := segments;
      segments := segments + [Borrowed(bytes)];
      assert segments[..|segments| - 1] == was;
      totalSize := totalSize + |bytes|;
      StillPlaced(was);
      return true;
    }

    /** Fields keep their segments when one is added behind them. */
    twostate lemma StillPlaced(was: seq<Segment>)
      requires old(AllPlaced()) && old(segments) == was && was <= segments && starts == old(starts) && ends == old(ends)
      requires segmentOf == old(segmentOf)
      ensures AllPlaced()
    {
      forall id: nat | id in starts
        ensures Placed(id)
      {
        assert old(Placed(id));
        assert segments[..segmentOf[id]] == segments[..|was|][..segmentOf[id]] == was[..segmentOf[id]];
      }
    }

    /** Notes the segment added last as that of field `id`. */
    method Note(id: nat, start: nat)
      requires Tiled() && AllPlaced() && segments != [] && id < |layout.fields|
      requires start == Segments.Total(segments[..|segments| - 1])
      requires layout.fields[id].Counter() ==> segments[|segments| - 1].Owned?
      modifies this`starts, this`ends, this`segmentOf
      ensures AllPlaced() && starts == old(starts)[id := start] && ends == old(ends)[id := totalSize]
    {
      starts, ends, segmentOf := starts[id := start], ends[id := totalSize], segmentOf[id := |segments| - 1];
      forall k: nat | k in starts
        ensures Placed(k)
      {
        if k != id {
          assert old(Placed(k));
        }
      }
    }

    /** Appends the bytes of field `id`, copied into scratch. */
    method AppendOwnedField(id: nat, bytes: seq<byte>) returns (ok: bool)
      requires Tiled() && AllPlaced() && id < |layout.fields|
      modifies this`segments, this`scratchOffset, this`totalSize, this`failed, this`starts, this`ends, this`segmentOf, scratch
      ensures Tiled() && AllPlaced()
      ensures ok ==> Written() == Put(old(Written()), id, bytes) && failed == old(failed) && |segments| == |old(segments)| + 1
      ensures !ok ==> failed && segments == old(segments)
    {
      var start := totalSize;
      ok := AppendOwned(bytes);
      if ok {
        assert segments[..|segments| - 1] == old(segments);
        Note(id, start);
      }
    }

    /** Appends the bytes of field `id` where they are. */
    method AppendBorrowedField(id: nat, bytes: seq<byte>) returns (ok: bool)
      requires Tiled() && AllPlaced() && id < |layout.fields| && !layout.fields[id].Counter()
      modifies this`segments, this`totalSize, this`failed, this`starts, this`ends, this`segmentOf
      ensures Tiled() && AllPlaced()
      ensures ok ==> Written() == Put(old(Written()), id, bytes) && failed == old(failed) && |segments| == |old(segments)| + 1
      ensures !ok ==> failed && segments == old(segments)
    {
      var start := totalSize;
      ok := AppendBorrowed(bytes);
      if ok {
        assert segments[..|segments| - 1] == old(segments);
        Note(id, start);
      }
    }

    /** Pads up to the alignment of a field. */
    method PadTo(id: nat) returns (ok: bool)
      requires Tiled() && AllPlaced() && id < |layout.fields| && !failed
      modifies this`segments, this`scratchOffset, this`totalSize, this`failed, scratch
      ensures Tiled() && AllPlaced() && |segments| <= |old(segments)| + 1
      ensures ok ==> !failed && Written() == Padded(layout, old(Written()), id)
      ensures !ok ==> failed
    {
      var aligned := AlignUp(totalSize, layout.fields[id].alignment);
      if aligned == totalSize {
        return true;
      }
      ok := AppendOwned(Repeat(0, aligned - totalSize));
    }

    /** Fills in field `id`, which follows the fields written so far: its gap, then its own bytes. */
    method FillIn(id: nat) returns (status: EncodeStatus)
      requires Tiled() && AllPlaced() && id < |layout.fields| && !failed
      modifies this`segments, this`scratchOffset, this`totalSize, this`failed, this`starts, this`ends, this`segmentOf, scratch
      ensures Tiled() && AllPlaced() && |segments| <= |old(segments)| + 2
      ensures status.EncodeOk? ==> !failed && AutoBytes(layout, id).Some?
                                   && Written() == Put(Padded(layout, old(Written()), id), id, AutoBytes(layout, id).value)
      ensures !status.EncodeOk? ==> failed
    {
      var padded := PadTo(id);
      if !padded {
        return BufferTooSmall;
      }
      var bytes := AutoBytes(layout, id);
      if bytes.None? {
        failed := true;
        return InvalidCall;
      }
      var ok := AppendOwnedField(id, bytes.value);
      return if ok then EncodeOk else BufferTooSmall;
    }

    /** The fields before `id` are filled in behind `before`. */
    ghost predicate Filled(before: Frame, id: nat)
      requires id <= |layout.fields|
      reads this, scratch
    {
      && Tiled() && AllPlaced() && |segments| <= 2 * id
      && AdvanceTo(layout, before, id) == Some(Written().(next := id))
    }

    method FillNext(ghost before: Frame, id: nat) returns (status: EncodeStatus)
      requires id < |layout.fields| && before.next <= id && Filled(before, id) && !failed
      modifies this`segments, this`scratchOffset, this`totalSize, this`failed, this`starts, this`ends, this`segmentOf, scratch
      ensures Tiled() && AllPlaced() && |segments| <= 2 * (id + 1)
      ensures status.EncodeOk? ==> Filled(before, id + 1) && !failed
      ensures !status.EncodeOk? ==> failed
    {
      status := FillIn(id);
    }

    /** Fills in the fields before `target`. */
    method Advance(target: nat) returns (status: EncodeStatus)
      requires Tiled() && AllPlaced() && target <= |layout.fields| && !failed && |segments| <= 2 * next
      modifies this`segments, this`scratchOffset, this`totalSize, this`next, this`failed, this`starts, this`ends, this`segmentOf, scratch
      ensures Tiled() && AllPlaced()
      ensures next == (if status.EncodeOk? && old(next) < target then target else old(next))
      ensures |segments| <= 2 * if old(next) < target then target else old(next)
      ensures status.EncodeOk? ==> AdvanceTo(layout, old(Written()), target) == Some(Written()) && !failed
      ensures !status.EncodeOk? ==> failed
    {
      if target <= next {
        return EncodeOk;
      }
      ghost var before := Written();
      var id := next;
      while id < target
        invariant before.next <= id <= target && next == before.next == old(next) && !failed
        invariant Filled(before, id)
      {
        status := FillNext(before, id);
        if !status.EncodeOk? {
          return;
        }
        id := id + 1;
      }
      next := target;
      return EncodeOk;
    }

    /** Sets one field, after filling in those before it. */
    method Set(call: Call, keeping: Keeping) returns (status: EncodeStatus)
      requires Valid() && !finalized
      modifies this, scratch
      ensures Valid() && finalized == old(finalized)
      ensures status.EncodeOk? ==> !failed && calls == old(calls) + [call]
      ensures !status.EncodeOk? ==> calls == old(calls)
      ensures old(failed) ==> failed
    {
      if failed || !Accepts(layout, next, call) || !MayKeep(layout, call, keeping) {
        return InvalidCall;
      }
      status := Write(call, keeping);
      if status.EncodeOk? {
        calls := calls + [call];
        assert calls[..|calls| - 1] == old(calls);
      }
    }

    /** Fills in the fields before a call's and appends its bytes. */
    method Write(call: Call, keeping: Keeping) returns (status: EncodeStatus)
      requires Tiled() && AllPlaced() && !failed && |segments| <= 2 * next
      requires Accepts(layout, next, call) && MayKeep(layout, call, keeping)
      modifies this`segments, this`scratchOffset, this`totalSize, this`next, this`failed, this`starts, this`ends, this`segmentOf, scratch
      ensures Tiled() && AllPlaced() && next <= |layout.fields|
      ensures status.EncodeOk? ==> Apply(layout, old(Written()), call) == Some(Written()) && !failed && |segments| <= 2 * next
      ensures !status.EncodeOk? ==> failed
    {
      status := Advance(call.id);
      if !status.EncodeOk? {
        return;
      }
      ApplyFrom(layout, old(Written()), Written(), call);
      var ok := AppendCall(call, keeping);
      if !ok {
        return BufferTooSmall;
      }
      next := call.id + 1;
    }

    /** Appends the bytes of a call, copied or where they are. */
    method AppendCall(call: Call, keeping: Keeping) returns (ok: bool)
      requires Tiled() && AllPlaced() && Accepts(layout, next, call) && MayKeep(layout, call, keeping)
      modifies this`segments, this`scratchOffset, this`totalSize, this`failed, this`starts, this`ends, this`segmentOf, scratch
      ensures Tiled() && AllPlaced() && |segments| <= |old(segments)| + 1
      ensures ok ==> Written() == Put(old(Written()), call.id, CallBytes(layout, call)) && failed == old(failed)
      ensures !ok ==> failed
    {
      if keeping.Attach? {
        ok := AppendBorrowedField(call.id, CallBytes(layout, call));
      } else {
        ok := AppendOwnedField(call.id, CallBytes(layout, call));
      }
    }

    /** Every field is in its place. */
    ghost predicate Ready()
      reads this, scratch
    {
      Tiled() && AllPlaced() && Usable(layout) && Laid(layout, Written()) && next == |layout.fields|
    }

    /** The first `k` checksums are written over the advanced frame. */
    ghost predicate WrittenUpTo(k: nat, advanced: Frame)
      reads this, scratch
    {
      Ready() && k <= |layout.checksums| && ChecksummedUpTo(p, layout, advanced, k) == Some(Written())
    }

    /** Fills in what is left and writes the checksums. */
    method Finalize() returns (status: EncodeStatus)
      requires Valid()
      modifies this, scratch
      ensures Valid() && calls == old(calls)
      ensures status.EncodeOk? ==> finalized
    {
      if failed {
        return InvalidCall;
      }
      if finalized {
        return EncodeOk;
      }
      status := FillRest();
      if !status.EncodeOk? {
        return;
      }
      var ok := WriteChecksums();
      if !ok {
        failed := true;
        return InvalidCall;
      }
      finalized := true;
    }

    /** Fills in the fields that are left. */
    method FillRest() returns (status: EncodeStatus)
      requires Valid() && !failed && !finalized
      modifies this`segments, this`scratchOffset, this`totalSize, this`next, this`failed, this`starts, this`ends, this`segmentOf, scratch
      ensures Tiled() && AllPlaced() && next <= |layout.fields| && |segments| <= 2 * |layout.fields|
      ensures status.EncodeOk? ==> Ready() && !failed && AdvanceTo(layout, Spelled(layout, calls).value, |layout.fields|) == Some(Written())
      ensures !status.EncodeOk? ==> failed
    {
      status := Advance(|layout.fields|);
      if status.EncodeOk? {
        SpelledLaid(layout, calls);
        AdvanceLaid(layout, Spelled(layout, calls).value, |layout.fields|);
      }
    }

    method WriteChecksums() returns (ok: bool)
      requires Ready()
      modifies scratch
      ensures Tiled() && AllPlaced()
      ensures ok ==> ChecksummedUpTo(p, layout, old(Written()), |layout.checksums|) == Some(Written())
    {
      ghost var advanced := Written();
      for k := 0 to |layout.checksums|
        invariant WrittenUpTo(k, advanced)
      {
        ok := WriteChecksum(k, advanced);
        if !ok {
          return;
        }
      }
      return true;
    }

    /** Writes checksum `k`, computed over the chunks of its range, into its field's segment. */
    method WriteChecksum(k: nat, ghost advanced: Frame) returns (ok: bool)
      requires WrittenUpTo(k, advanced) && k < |layout.checksums|
      modifies scratch
      ensures ok ==> WrittenUpTo(k + 1, advanced)
      ensures !ok ==> Tiled() && AllPlaced() && ChecksummedUpTo(p, layout, advanced, k + 1).None?
    {
      var bytes := ChecksumBytes(k);
      if bytes.None? {
        return false;
      }
      ghost var s := Written();
      ChecksummedLaid(p, layout, s, k);
      OverwriteField(layout.checksums[k].fieldId, bytes.value);
      return true;
    }

    /** Overwrites a counter in its segment. */
    method OverwriteField(id: nat, bytes: seq<byte>)
      requires Tiled() && AllPlaced() && id in starts && LaidAt(layout, Written(), id)
      requires layout.fields[id].Counter() && |bytes| == layout.fields[id].width
      modifies scratch
      ensures Tiled() && AllPlaced()
      ensures Written() == old(Written()).(bytes := Codec.Patch(old(Written()).bytes, starts[id], bytes))
    {
      assert Placed(id);
      var j := segmentOf[id];
      ghost var all := scratch[..];
      SegmentInContent(all, segments, j);
      PatchContent(all, segments, j, bytes);
      WriteAt(scratch, segments[j].from, bytes);
      assert scratch[..] == Codec.Patch(all, segments[j].from, bytes);
    }

    /** The bytes of checksum `k` over its range; none when the range ends before it starts. */
    method ChecksumBytes(k: nat) returns (bytes: Option<seq<byte>>)
      requires Ready() && k < |layout.checksums|
      ensures ChecksumWellFormed(layout, k) && LaidAt(layout, Written(), layout.checksums[k].fieldId)
      ensures bytes.Some? ==> |bytes.value| == layout.fields[layout.checksums[k].fieldId].width
      ensures Checksummed(p, layout, Written(), layout.checksums[k])
              == match bytes
                 case None => None
                 case Some(value) =>
                   Some(Written().(bytes := Codec.Patch(Written().bytes, starts[layout.checksums[k].fieldId], value)))
    {
      assert ChecksumWellFormed(layout, k);
      var c := layout.checksums[k];
      assert LaidAt(layout, Written(), c.fieldId);
      AnchorsNoted(c);
      var from, to := Resolve(c.from), Resolve(c.to);
      if from > to || to > totalSize {
        return None;
      }
      var value := RangeChecksum(c.algorithm, from, to);
      return Some(ScalarBytes(layout.fields[c.fieldId], value));
    }

    method RangeChecksum(algorithm: string, from: nat, to: nat) returns (value: nat)
      requires Tiled() && from <= to <= totalSize
      ensures value == ChecksumValue(p, algorithm, Written().bytes[from..to])
    {
      var chunks := VisitRange(scratch, segments, from, to);
      value := SegmentedChecksum(p, algorithm, chunks);
    }

    lemma AnchorsNoted(c: Checksum)
      requires Ready() && AnchorWellFormed(layout, c.from) && AnchorWellFormed(layout, c.to)
      ensures AnchorAt(c.from, Written()).Some? && AnchorAt(c.to, Written()).Some?
      ensures c.from.kind.FrameStart? || c.from.kind.FrameEnd? || LaidAt(layout, Written(), c.from.fieldId)
      ensures c.to.kind.FrameStart? || c.to.kind.FrameEnd? || LaidAt(layout, Written(), c.to.fieldId)
    {
    }

    /** Where an anchor points in the frame. */
    function Resolve(a: Anchor): (r: nat)
      requires Tiled() && (a.kind.FrameStart? || a.kind.FrameEnd? || LaidAt(layout, Written(), a.fieldId))
      reads this, scratch
      ensures AnchorAt(a, Written()) == Some(r)
    {
      match a.kind
      case FrameStart => 0
      case FrameEnd => totalSize
      case FieldStart => starts[a.fieldId]
      case BeforeSelf => starts[a.fieldId]
      case FieldEnd => ends[a.fieldId]
      case AfterSelf => ends[a.fieldId]
    }

    /** Copies the finished frame, segment after segment. */
    method CopyTo(output: array<byte>) returns (status: EncodeStatus, written: nat)
      requires Valid() && output != scratch
      modifies output
      ensures Valid()
      ensures status == if !finalized then InvalidCall else if output.Length < totalSize then BufferTooSmall else EncodeOk
      ensures status.EncodeOk? ==> written == totalSize <= output.Length && output[..written] == Written().bytes
    {
      written := 0;
      if !finalized {
        return InvalidCall, 0;
      }
      if output.Length < totalSize {
        return BufferTooSmall, 0;
      }
      for k := 0 to |segments|
        invariant Valid() && CopiedUpTo(output, k, written)
      {
        written := CopyOne(output, k, written);
      }
      assert segments[..|segments|] == segments;
      return EncodeOk, written;
    }

    /** The first `k` segments fill the output up to `written`. */
    ghost predicate CopiedUpTo(output: array<byte>, k: nat, written: nat)
      requires Tiled()
      reads this, scratch, output
    {
      && k <= |segments| && InOrder(segments[..k]) && OwnedEnd(segments[..k]) <= scratch.Length
      && written == Segments.Total(segments[..k]) <= totalSize <= output.Length
      && output[..written] == Content(scratch[..], segments[..k])
    }

    /** Copies one more segment. */
    method CopyOne(output: array<byte>, k: nat, at: nat) returns (written: nat)
      requires Tiled() && output != scratch && k < |segments| && CopiedUpTo(output, k, at)
      modifies output
      ensures Tiled() && CopiedUpTo(output, k + 1, written)
    {
      ContentGrows(scratch[..], segments, k);
      PrefixInOrder(segments, k + 1);
      var g := segments[k];
      var bytes := if g.Owned? then scratch[g.from..g.from + g.length] else g.bytes;
      assert bytes == SegmentBytes(scratch[..], g);
      WriteAt(output, at, bytes);
      written := at + |bytes|;
    }
  }

  /** After the same calls, whatever was copied or attached, both builders have finished the same frame. */
  lemma SameFrame(a: MessageBuilder, b: SegmentedMessageBuilder)
    requires a.Valid() && b.Valid() && a.finalized && b.finalized
    requires a.p == b.p && a.layout == b.layout && a.calls == b.calls
    ensures a.buffer[..a.offset] == b.Written().bytes
  {
  }
}
