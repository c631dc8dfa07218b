/** The borrowed-view decoder as it runs: a message object filled field by field, and collection views
    that walk or jump to an element. */
module DecodedMessage {
  import opened Prelude
  import opened Bytes
  import opened Metadata
  import Codec
  import opened BorrowedDecoder
  import opened BorrowedViews

  // ----- A failure ends every loop -----

  lemma {:induction false} FieldsStop(p: Protocol, l: Layout, frame: seq<byte>, i: nat, n: nat)
    requires Compiled(p, l) && i <= n <= |l.fields| && AssignFields(p, l, frame, i).Rejected?
    ensures AssignFields(p, l, frame, n) == AssignFields(p, l, frame, i)
    decreases n
  {
    if i < n {
      FieldsStop(p, l, frame, i, n - 1);
    }
  }

  lemma {:induction false} WalkStops(p: Protocol, e: Layout, rest: seq<byte>, i: nat, n: nat)
    requires Compiled(p, e) && i <= n && WalkSize(p, e, rest, i).NoSize?
    ensures WalkSize(p, e, rest, n) == WalkSize(p, e, rest, i)
    decreases n
  {
    if i < n {
      WalkStops(p, e, rest, i, n - 1);
    }
  }

  lemma {:induction false} ChecksStop(p: Protocol, l: Layout, frame: seq<byte>, slots: seq<Slot>, i: nat, n: nat)
    requires i <= n <= |l.checksums| && CheckAll(p, l, frame, slots, i).Some?
    ensures CheckAll(p, l, frame, slots, n) == CheckAll(p, l, frame, slots, i)
    decreases n
  {
    if i < n {
      ChecksStop(p, l, frame, slots, i, n - 1);
    }
  }

  // ----- Messages -----

  class Message {
    var layout: Option<Layout>
    var frame: seq<byte>
    var slots: seq<Slot>

    constructor ()
      ensures layout == None
    {
      layout, frame, slots := None, [], [];
    }

    /** Resolves a layout against a span. A failure leaves the message as it was. */
    method AssignFromLayout(p: Protocol, l: Layout, span: seq<byte>, prefix: bool) returns (r: Result<nat, Status>)
      requires Compiled(p, l)
      modifies this
      ensures match Assign(p, l, span, prefix)
              case Rejected(status) => r == Err(status) && unchanged(this)
              case Accepted(resolved, consumed) =>
                && r == Ok(consumed) && layout == Some(l) && slots == resolved
                && frame == if l.allowTrailing then span else span[..consumed]
      decreases Depth(p, l), 4, 0
    {
      if |span| < l.minimumSize {
        return Err(SchemaMismatch);
      }
      var candidate: seq<Slot> := [];
      var offset: nat := 0;
      for i := 0 to |l.fields|
        invariant AssignFields(p, l, span, i) == Accepted(candidate, offset)
        invariant unchanged(this)
      {
        var next := ResolveField(p, l, span, i, candidate, offset);
        if next.Err? {
          FieldsStop(p, l, span, i + 1, |l.fields|);
          return Err(next.error);
        }
        candidate, offset := candidate + [next.value.0], next.value.1;
      }
      if !prefix && !l.allowTrailing && offset != |span| {
        return Err(SchemaMismatch);
      }
      var fault := VerifyChecksums(p, l, span, candidate);
      if fault.Some? {
        return Err(fault.value);
      }
      layout, slots := Some(l), candidate;
      frame := if l.allowTrailing then span else span[..offset];
      return Ok(offset);
    }
  }

  /** Resolves field `i` behind the fields before it: its slot and the offset behind it. */
  method ResolveField(p: Protocol, l: Layout, span: seq<byte>, i: nat, slots: seq<Slot>, offset: nat)
    returns (r: Result<(Slot, nat), Status>)
    requires Compiled(p, l) && i < |l.fields|
    ensures match AssignField(p, l, span, i, slots, offset)
            case Rejected(status) => r == Err(status)
            case Accepted(longer, end) => r.Ok? && longer == slots + [r.value.0] && end == r.value.1
    decreases Depth(p, l), 2, 0
  {
    var f := l.fields[i];
    if !ConditionMatches(l, slots, f) || !PresenceMatches(l, slots, f) {
      return Ok((Slot(false, offset, 0, None), offset));
    }
    var start := AlignUp(offset, f.alignment);
    if start > |span| {
      return Err(SchemaMismatch);
    }
    var size := ResolveSize(p, l, span, i, slots, start);
    if size.NoSize? {
      return Err(size.reason);
    }
    var end := start + size.size;
    if end > |span| {
      return Err(SchemaMismatch);
    }
    var bytes := span[start..end];
    var raw := CachedRaw(f, bytes);
    if f.hasExpected && raw != Some(f.expected) {
      return Err(SchemaMismatch);
    }
    if f.kind.Text? && Codec.DecodeText(f.encoding, bytes).None? {
      return Err(InvalidData);
    }
    if f.reserved {
      for k := 0 to |bytes|
        invariant forall j | 0 <= j < k :: bytes[j] == f.fill
      {
        if bytes[k] != f.fill {
          return Err(SchemaMismatch);
        }
      }
    }
    return Ok((Slot(true, start, size.size, raw), end));
  }

  /** The bytes a present field takes from `start` on. */
  method ResolveSize(p: Protocol, l: Layout, span: seq<byte>, i: nat, slots: seq<Slot>, start: nat) returns (r: Sizing)
    requires Compiled(p, l) && i < |l.fields| && start <= |span|
    ensures r == FieldSize(p, l, span, i, slots, start)
    decreases Depth(p, l), 1, 0
  {
    assert FieldWellFormed(p, l, i);
    var f := l.fields[i];
    if f.kind.Raw? || f.kind.Text? {
      if !f.dynamicSize {
        return Size(f.fixedSize);
      }
      var size := RawUnsigned(l, slots, f.sizeFrom);
      return if size.None? || size.value > |span| then NoSize(InvalidData) else Size(size.value);
    } else if f.kind.Nested? {
      NestedIsCompiled(p, l, f, f.structId);
      r := SizeOfStruct(p, p.structs[f.structId], span[start..]);
    } else if f.kind.Collection? {
      NestedIsCompiled(p, l, f, f.structId);
      var count := if f.dynamicCount then RawUnsigned(l, slots, f.countFrom) else Some(f.fixedCount);
      if count.None? {
        return NoSize(InvalidData);
      }
      r := SizeOfCollection(p, p.structs[f.structId], span[start..], count.value);
    } else if f.kind.Variant? {
      var tag := RawUnsigned(l, slots, f.tagFrom);
      if tag.None? {
        return NoSize(InvalidData);
      }
      var k := FindCase(f.cases, tag.value);
      if k.None? {
        return NoSize(InvalidData);
      }
      assert CaseWellFormed(p, f, k.value);
      NestedIsCompiled(p, l, f, f.cases[k.value].structId);
      r := SizeOfStruct(p, p.structs[f.cases[k.value].structId], span[start..]);
    } else {
      return Size(f.width);
    }
  }

  method SizeOfStruct(p: Protocol, l: Layout, rest: seq<byte>) returns (r: Sizing)
    requires Compiled(p, l)
    ensures r == SizeOf(Assign(p, l, rest, true))
    decreases Depth(p, l), 5, 0
  {
    var nested := new Message();
    var consumed := nested.AssignFromLayout(p, l, rest, true);
    return if consumed.Err? then NoSize(consumed.error) else Size(consumed.value);
  }

  /** The first `n` elements take up `total` bytes. */
  ghost predicate WalkedTo(p: Protocol, e: Layout, rest: seq<byte>, n: nat, total: nat)
    requires Compiled(p, e)
  {
    WalkSize(p, e, rest, n) == Size(total)
  }

  method SizeOfCollection(p: Protocol, e: Layout, rest: seq<byte>, count: nat) returns (r: Sizing)
    requires Compiled(p, e)
    ensures r == CollectionSize(p, e, rest, count)
    decreases Depth(p, e), 6, 0
  {
    if count == 0 {
      return Size(0);
    }
    if e.hasFixedSize {
      if e.minimumSize == 0 || count > |rest| / e.minimumSize {
        return NoSize(SchemaMismatch);
      }
      return Size(count * e.minimumSize);
    }
    var total: nat := 0;
    for index := 0 to count
      invariant WalkedTo(p, e, rest, index, total)
    {
      var element := SizeOfStruct(p, e, rest[total..]);
      if element.NoSize? {
        WalkStops(p, e, rest, index + 1, count);
        return element;
      }
      if element.size == 0 {
        WalkStops(p, e, rest, index + 1, count);
        return NoSize(SchemaMismatch);
      }
      total := total + element.size;
    }
    return Size(total);
  }

  method VerifyChecksums(p: Protocol, l: Layout, span: seq<byte>, slots: seq<Slot>) returns (fault: Option<Status>)
    ensures fault == CheckAll(p, l, span, slots, |l.checksums|)
  {
    for k := 0 to |l.checksums|
      invariant CheckAll(p, l, span, slots, k).None?
    {
      fault := CheckOne(p, l, span, slots, l.checksums[k]);
      if fault.Some? {
        ChecksStop(p, l, span, slots, k + 1, |l.checksums|);
        return;
      }
    }
    return None;
  }

  // ----- Collection views -----

  /** The element at `index`: reached by multiplication when elements have a fixed size, else by walking. */
  method At(p: Protocol, e: Layout, view: seq<byte>, count: nat, index: nat) returns (r: Option<Message>)
    requires Compiled(p, e) && !e.allowTrailing
    ensures r.Some? <==> ElementAt(p, e, view, count, index).Accepted?
    ensures r.Some? ==> r.value.slots == ElementAt(p, e, view, count, index).slots
    ensures r.Some? ==> |r.value.frame| == ElementAt(p, e, view, count, index).consumed
  {
    if index >= count {
      return None;
    }
    if e.hasFixedSize {
      if e.minimumSize == 0 || index * e.minimumSize > |view| {
        return None;
      }
      var element := new Message();
      var status := element.AssignFromLayout(p, e, view[index * e.minimumSize..], true);
      return if status.Ok? then Some(element) else None;
    }
    var offset: nat := 0;
    for current := 0 to index
      invariant WalkSize(p, e, view, current) == Size(offset)
    {
      var consumed := SizeOfStruct(p, e, view[offset..]);
      if consumed.NoSize? || consumed.size == 0 {
        WalkStops(p, e, view, current + 1, index);
        return None;
      }
      offset := offset + consumed.size;
    }
    var element := new Message();
    var status := element.AssignFromLayout(p, e, view[offset..], true);
    return if status.Ok? then Some(element) else None;
  }
}
