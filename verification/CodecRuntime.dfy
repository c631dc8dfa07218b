/** The codec as it runs: a growing byte buffer, a dictionary filled field by field, and loops. Each
    method is proved to compute what `Codec` says encoding and decoding mean. */
module CodecRuntime {
  import opened Prelude
  import opened Bytes
  import opened Metadata
  import Codec

  type Mapping = Codec.Mapping
  type Value = Codec.Value
  type Derived = Codec.Derived
  type EncodeError = Codec.EncodeError
  type DecodeStatus = Codec.DecodeStatus

  /** A growing, patchable byte buffer. */
  class ByteBuffer {
    var data: seq<byte>

    constructor ()
      ensures data == []
    {
      data := [];
    }

    method Extend(bytes: seq<byte>)
      modifies this
      ensures data == old(data) + bytes
    {
      data := data + bytes;
    }

    method ExtendRepeated(b: byte, count: nat)
      modifies this
      ensures data == old(data) + Repeat(b, count)
    {
      data := data + Repeat(b, count);
    }

    method Assign(start: nat, bytes: seq<byte>)
      requires start <= |data|
      modifies this
      ensures data == Codec.Patch(old(data), start, bytes)
    {
      data := data[..start] + bytes + (if start + |bytes| <= |data| then data[start + |bytes|..] else []);
    }
  }

  // ----- A failure ends every loop -----

  lemma {:induction false} DeriveStops(p: Protocol, l: Layout, m: Mapping, i: nat, n: nat)
    requires LayoutWellFormed(p, l) && i <= n <= |l.fields| && Codec.Derive(p, l, m, i).Err?
    ensures Codec.Derive(p, l, m, n) == Codec.Derive(p, l, m, i)
    decreases n
  {
    if i < n {
      DeriveStops(p, l, m, i, n - 1);
    }
  }

  lemma {:induction false} EncodeFieldsStop(p: Protocol, l: Layout, m: Mapping, d: Derived, i: nat, n: nat)
    requires Compiled(p, l) && i <= n <= |l.fields| && Codec.EncodeFields(p, l, m, d, i).Err?
    ensures Codec.EncodeFields(p, l, m, d, n).Err?
    ensures Codec.EncodeFields(p, l, m, d, n).error == Codec.EncodeFields(p, l, m, d, i).error
    decreases n
  {
    if i < n {
      EncodeFieldsStop(p, l, m, d, i, n - 1);
    }
  }

  lemma {:induction false} PatchChecksumsStop(p: Protocol, l: Layout, w: Codec.Written, i: nat, n: nat)
    requires ChecksumsWellFormed(l) && |w.spans| == |l.fields| && i <= n <= |l.checksums|
    requires Codec.PatchChecksums(p, l, w, i).Err?
    ensures Codec.PatchChecksums(p, l, w, n) == Codec.PatchChecksums(p, l, w, i)
    decreases n
  {
    if i < n {
      PatchChecksumsStop(p, l, w, i, n - 1);
    }
  }

  lemma {:induction false} EncodeItemsStop(p: Protocol, e: Layout, items: seq<Value>, n: nat)
    requires Compiled(p, e) && n <= |items| && Codec.EncodeItems(p, e, items[..n]).Err?
    ensures Codec.EncodeItems(p, e, items).Err?
    ensures Codec.EncodeItems(p, e, items).error == Codec.EncodeItems(p, e, items[..n]).error
    decreases |items|
  {
    if n < |items| {
      var shorter := items[..|items| - 1];
      assert shorter[..n] == items[..n];
      EncodeItemsStop(p, e, shorter, n);
    } else {
      assert items[..n] == items;
    }
  }

  // ----- Encoding -----

  /** The lengths and counts the data determines. */
  method DerivedFields(p: Protocol, l: Layout, values: Mapping) returns (r: Result<Derived, EncodeError>)
    requires LayoutWellFormed(p, l)
    ensures r == Codec.Derive(p, l, values, |l.fields|)
  {
    var lengths: map<nat, nat>, payloads: map<nat, seq<byte>> := map[], map[];
    for i := 0 to |l.fields|
      invariant Codec.Derive(p, l, values, i) == Ok(Codec.Derived(lengths, payloads))
    {
      var f := l.fields[i];
      var present := Codec.Present(l, i, values);
      if present.None? {
        DeriveStops(p, l, values, i + 1, |l.fields|);
        return Err(Codec.BadNumber);
      }
      if present == Some(false) || f.name !in values || values[f.name].Nil? {
        continue;
      }
      if (f.kind.Raw? || f.kind.Text?) && f.dynamicSize {
        var payload := Codec.PayloadBytes(f, values[f.name]);
        if payload.Err? {
          DeriveStops(p, l, values, i + 1, |l.fields|);
          return Err(payload.error);
        }
        payloads := payloads[f.id := payload.value];
        lengths := lengths[f.sizeFrom := |payload.value|];
      } else if f.kind.Collection? && f.dynamicCount {
        var count := Codec.LengthOf(values[f.name]);
        if count.None? {
          DeriveStops(p, l, values, i + 1, |l.fields|);
          return Err(Codec.NotAMapping);
        }
        lengths := lengths[f.countFrom := count.value];
      }
    }
    return Ok(Codec.Derived(lengths, payloads));
  }

  /** The offsets noted for the fields so far are their spans. */
  ghost predicate Tracks(starts: map<nat, nat>, ends: map<nat, nat>, spans: seq<Codec.Span>) {
    && (forall k | 0 <= k < |spans| :: k in starts && starts[k] == spans[k].start)
    && (forall k | 0 <= k < |spans| :: k in ends && ends[k] == spans[k].end)
  }

  function AnchorAt(a: Anchor, starts: map<nat, nat>, ends: map<nat, nat>, total: nat): nat
    requires a.kind.FrameStart? || a.kind.FrameEnd? || (a.fieldId in starts && a.fieldId in ends)
  {
    match a.kind
    case FrameStart => 0
    case FrameEnd => total
    case FieldStart => starts[a.fieldId]
    case BeforeSelf => starts[a.fieldId]
    case FieldEnd => ends[a.fieldId]
    case AfterSelf => ends[a.fieldId]
  }

  lemma AppendedTo(before: seq<byte>, w: Codec.Written, alignment: nat, bytes: seq<byte>)
    ensures var start := AlignUp(|w.bytes|, alignment);
            before + w.bytes + Repeat(0, start - |w.bytes|) + bytes
            == before + Codec.Append(w, Codec.Put(alignment, bytes)).bytes
  {
  }

  /** Writes field `i` behind the layout's bytes so far and reports where it went. */
  method PutField(p: Protocol, l: Layout, values: Mapping, d: Derived, i: nat, layoutStart: nat, out: ByteBuffer,
                  ghost before: seq<byte>, ghost w: Codec.Written)
    returns (r: Result<Codec.Span, EncodeError>)
    requires Compiled(p, l) && i < |l.fields|
    requires |before| == layoutStart && out.data == before + w.bytes
    modifies out
    ensures match Codec.PieceOf(p, l, values, d, i)
            case Err(error) => r == Err(error)
            case Ok(piece) =>
              && r == Ok(Codec.Append(w, piece).spans[|w.spans|])
              && out.data == before + Codec.Append(w, piece).bytes
    decreases Depth(p, l), 2, 0
  {
    var f := l.fields[i];
    var present := Codec.Present(l, i, values);
    if present.None? {
      return Err(Codec.BadNumber);
    }
    var here := |out.data| - layoutStart;
    if present == Some(false) {
      return Ok(Codec.Span(here, here));
    }
    var start := AlignUp(here, f.alignment);
    out.ExtendRepeated(0, start - here);
    ghost var padded := out.data;
    var written := PutBytes(p, l, values, d, i, out);
    if written.Err? {
      return Err(written.error);
    }
    AppendedTo(before, w, f.alignment, Codec.FieldBytes(p, l, values, d, i).value);
    return Ok(Codec.Span(start, |out.data| - layoutStart));
  }

  /** Appends the bytes of a present field. */
  method PutBytes(p: Protocol, l: Layout, values: Mapping, d: Derived, i: nat, out: ByteBuffer)
    returns (r: Result<(), EncodeError>)
    requires Compiled(p, l) && i < |l.fields|
    modifies out
    ensures match Codec.FieldBytes(p, l, values, d, i)
            case Err(error) => r == Err(error)
            case Ok(s) => r == Ok(()) && out.data == old(out.data) + s
    decreases Depth(p, l), 1, 0
  {
    var f := l.fields[i];
    if Codec.IsChecksumField(l, f.id) {
      out.ExtendRepeated(0, f.width);
      return Ok(());
    } else if f.id in d.lengths {
      r := PutScalar(f, Codec.Num(d.lengths[f.id]), out);
    } else if f.hasExpected {
      r := PutScalar(f, Codec.Num(f.expected), out);
    } else if f.reserved {
      out.ExtendRepeated(f.fill, f.fixedSize);
      return Ok(());
    } else if f.name !in values {
      return Err(Codec.MissingValue);
    } else {
      r := EncodeField(p, l, values, d, i, values[f.name], out);
    }
  }

  method PutScalar(f: Field, v: Value, out: ByteBuffer) returns (r: Result<(), EncodeError>)
    modifies out
    ensures match Codec.EncodeScalar(f, v)
            case Err(error) => r == Err(error)
            case Ok(s) => r == Ok(()) && out.data == old(out.data) + s
  {
    var s := Codec.EncodeScalar(f, v);
    if s.Err? {
      return Err(s.error);
    }
    out.Extend(s.value);
    return Ok(());
  }

  /** Appends the encoding of a supplied value. */
  method EncodeField(p: Protocol, l: Layout, values: Mapping, d: Derived, i: nat, v: Value, out: ByteBuffer)
    returns (r: Result<(), EncodeError>)
    requires Compiled(p, l) && i < |l.fields|
    modifies out
    ensures match Codec.EncodeValue(p, l, values, d, i, v)
            case Err(error) => r == Err(error)
            case Ok(s) => r == Ok(()) && out.data == old(out.data) + s
    decreases Depth(p, l), 0, 1
  {
    assert FieldWellFormed(p, l, i);
    var f := l.fields[i];
    if f.Scalar() {
      r := PutScalar(f, v, out);
    } else if f.kind.Raw? || f.kind.Text? {
      r := PutPayload(f, d, v, out);
    } else if f.kind.Nested? {
      NestedIsCompiled(p, l, f, f.structId);
      var inner := Codec.AsMapping(v);
      if inner.Err? {
        return Err(inner.error);
      }
      r := EncodeLayoutInto(p, p.structs[f.structId], inner.value, out);
    } else if f.kind.Collection? {
      NestedIsCompiled(p, l, f, f.structId);
      var items := Codec.AsItems(v);
      if items.Err? {
        return Err(items.error);
      }
      r := EncodeElements(p, p.structs[f.structId], items.value, out);
    } else {
      r := EncodeVariant(p, l, values, d, i, v, out);
    }
  }

  /** Appends the bytes of a byte or string field. */
  method PutPayload(f: Field, d: Derived, v: Value, out: ByteBuffer) returns (r: Result<(), EncodeError>)
    modifies out
    ensures match Codec.EncodePayload(f, d, v)
            case Err(error) => r == Err(error)
            case Ok(s) => r == Ok(()) && out.data == old(out.data) + s
  {
    var payload := if f.id in d.payloads then Ok(d.payloads[f.id]) else Codec.PayloadBytes(f, v);
    if payload.Err? {
      return Err(payload.error);
    }
    if !f.dynamicSize && |payload.value| != f.fixedSize {
      return Err(Codec.WrongSize);
    }
    out.Extend(payload.value);
    return Ok(());
  }

  /** Appends the struct that the supplied tag selects. */
  method EncodeVariant(p: Protocol, l: Layout, values: Mapping, d: Derived, i: nat, v: Value, out: ByteBuffer)
    returns (r: Result<(), EncodeError>)
    requires Compiled(p, l) && i < |l.fields| && l.fields[i].kind.Variant?
    modifies out
    ensures match Codec.EncodeValue(p, l, values, d, i, v)
            case Err(error) => r == Err(error)
            case Ok(s) => r == Ok(()) && out.data == old(out.data) + s
    decreases Depth(p, l), 0, 0
  {
    assert FieldWellFormed(p, l, i);
    var f := l.fields[i];
    var tagName := l.fields[f.tagFrom].name;
    if tagName !in values {
      return Err(Codec.MissingValue);
    }
    var tag := Codec.ToInt(values[tagName]);
    if tag.None? {
      return Err(Codec.BadNumber);
    }
    var k := FindCase(f.cases, tag.value);
    if k.None? {
      return Err(Codec.NoVariantCase);
    }
    assert CaseWellFormed(p, f, k.value);
    NestedIsCompiled(p, l, f, f.cases[k.value].structId);
    var inner := Codec.AsMapping(v);
    if inner.Err? {
      return Err(inner.error);
    }
    r := EncodeLayoutInto(p, p.structs[f.cases[k.value].structId], inner.value, out);
  }

  /** The first case with the given tag. */
  method FindCase(cases: seq<VariantCase>, tag: int) returns (k: Option<nat>)
    ensures k == Codec.FindCase(cases, tag, 0)
    ensures k.Some? ==> k.value < |cases| && cases[k.value].tag == tag && forall j | 0 <= j < k.value :: cases[j].tag != tag
    ensures k.None? ==> forall j | 0 <= j < |cases| :: cases[j].tag != tag
  {
    for i := 0 to |cases|
      invariant forall j | 0 <= j < i :: cases[j].tag != tag
      invariant Codec.FindCase(cases, tag, 0) == Codec.FindCase(cases, tag, i)
    {
      if cases[i].tag == tag {
        return Some(i);
      }
    }
    return None;
  }

  /** Appends the elements of a collection one after the other. */
  method EncodeElements(p: Protocol, e: Layout, items: seq<Value>, out: ByteBuffer) returns (r: Result<(), EncodeError>)
    requires Compiled(p, e)
    modifies out
    ensures match Codec.EncodeItems(p, e, items)
            case Err(error) => r == Err(error)
            case Ok(s) => r == Ok(()) && out.data == old(out.data) + s
    decreases Depth(p, e), 5, 0
  {
    ghost var soFar: seq<byte> := [];
    for i := 0 to |items|
      invariant Codec.EncodeItems(p, e, items[..i]) == Ok(soFar)
      invariant out.data == old(out.data) + soFar
    {
      assert items[..i + 1][..i] == items[..i];
      if !items[i].Rec? {
        EncodeItemsStop(p, e, items, i + 1);
        return Err(Codec.NotAMapping);
      }
      var step := EncodeLayoutInto(p, e, items[i].fields, out);
      if step.Err? {
        EncodeItemsStop(p, e, items, i + 1);
        return Err(step.error);
      }
      soFar := soFar + Codec.EncodeLayout(p, e, items[i].fields).value;
    }
    assert items[..|items|] == items;
    return Ok(());
  }

  lemma PatchBehind(before: seq<byte>, s: seq<byte>, start: nat, bytes: seq<byte>)
    requires start <= |s|
    ensures Codec.Patch(before + s, |before| + start, bytes) == before + Codec.Patch(s, start, bytes)
  {
  }

  lemma ClampedSliceBehind(before: seq<byte>, s: seq<byte>, from: nat, to: nat)
    ensures Codec.Slice(before + s, |before| + from, |before| + to) == Codec.Slice(s, from, to)
  {
  }

  /** Appends the encoding of a layout: every field in turn, then the checksums over what was written. */
  method EncodeLayoutInto(p: Protocol, l: Layout, values: Mapping, out: ByteBuffer) returns (r: Result<(), EncodeError>)
    requires Compiled(p, l)
    modifies out
    ensures match Codec.EncodeLayout(p, l, values)
            case Err(error) => r == Err(error)
            case Ok(s) => r == Ok(()) && out.data == old(out.data) + s
    decreases Depth(p, l), 4, 0
  {
    ghost var before := out.data;
    var layoutStart := |out.data|;
    var derived := DerivedFields(p, l, values);
    if derived.Err? {
      return Err(derived.error);
    }
    var starts, ends, problem := PutFields(p, l, values, derived.value, layoutStart, out);
    if problem.Some? {
      return Err(problem.value);
    }
    ghost var w := Codec.EncodeFields(p, l, values, derived.value, |l.fields|).value;
    r := PutChecksums(p, l, layoutStart, starts, ends, out, before, w);
  }

  /** The first `i` fields encoded. */
  ghost predicate FieldsPut(p: Protocol, l: Layout, values: Mapping, d: Derived, i: nat, w: Codec.Written)
    requires Compiled(p, l) && i <= |l.fields|
  {
    Codec.EncodeFields(p, l, values, d, i) == Ok(w)
  }

  /** Appends every field in turn, noting where each went if there are checksums. */
  method PutFields(p: Protocol, l: Layout, values: Mapping, d: Derived, layoutStart: nat, out: ByteBuffer)
    returns (starts: map<nat, nat>, ends: map<nat, nat>, problem: Option<EncodeError>)
    requires Compiled(p, l) && layoutStart == |out.data|
    modifies out
    ensures match Codec.EncodeFields(p, l, values, d, |l.fields|)
            case Err(error) => problem == Some(error)
            case Ok(w) => problem == None && out.data == old(out.data) + w.bytes && (l.checksums != [] ==> Tracks(starts, ends, w.spans))
    decreases Depth(p, l), 3, 0
  {
    ghost var before := out.data;
    var trackOffsets := l.checksums != [];
    starts, ends, problem := map[], map[], None;
    ghost var w := Codec.Written([], []);
    for i := 0 to |l.fields|
      invariant FieldsPut(p, l, values, d, i, w) && out.data == before + w.bytes
      invariant trackOffsets ==> Tracks(starts, ends, w.spans)
    {
      var span := PutField(p, l, values, d, i, layoutStart, out, before, w);
      if span.Err? {
        EncodeFieldsStop(p, l, values, d, i + 1, |l.fields|);
        return starts, ends, Some(span.error);
      }
      if trackOffsets {
        starts, ends := starts[i := span.value.start], ends[i := span.value.end];
      }
      w := Codec.Append(w, Codec.PieceOf(p, l, values, d, i).value);
    }
  }

  /** The first `k` checksums patched in. */
  ghost predicate PatchedTo(p: Protocol, l: Layout, w: Codec.Written, k: nat, s: seq<byte>)
    requires ChecksumsWellFormed(l) && |w.spans| == |l.fields| && k <= |l.checksums|
  {
    Codec.PatchChecksums(p, l, w, k) == Ok(s)
  }

  /** Computes each checksum over the bytes written so far and patches it in. */
  method PutChecksums(p: Protocol, l: Layout, layoutStart: nat, starts: map<nat, nat>, ends: map<nat, nat>, out: ByteBuffer,
                      ghost before: seq<byte>, ghost w: Codec.Written)
    returns (r: Result<(), EncodeError>)
    requires ChecksumsWellFormed(l) && |w.spans| == |l.fields|
    requires |before| == layoutStart && out.data == before + w.bytes
    requires l.checksums != [] ==> Tracks(starts, ends, w.spans)
    modifies out
    ensures match Codec.PatchChecksums(p, l, w, |l.checksums|)
            case Err(error) => r == Err(error)
            case Ok(s) => r == Ok(()) && out.data == before + s
  {
    ghost var s := w.bytes;
    for k := 0 to |l.checksums|
      invariant PatchedTo(p, l, w, k, s) && out.data == before + s
    {
      assert ChecksumWellFormed(l, k);
      var step := PutChecksum(p, l, k, layoutStart, starts, ends, out, before, s, w.spans);
      if step.Err? {
        PatchChecksumsStop(p, l, w, k + 1, |l.checksums|);
        return Err(step.error);
      }
      s := Codec.PatchOne(p, l, k, w.spans, s).value;
    }
    return Ok(());
  }

  /** Computes checksum `k` over the bytes written so far and patches it in. */
  method PutChecksum(p: Protocol, l: Layout, k: nat, layoutStart: nat, starts: map<nat, nat>, ends: map<nat, nat>,
                     out: ByteBuffer, ghost before: seq<byte>, ghost s: seq<byte>, ghost spans: seq<Codec.Span>)
    returns (r: Result<(), EncodeError>)
    requires k < |l.checksums| && ChecksumWellFormed(l, k) && |spans| == |l.fields|
    requires |before| == layoutStart && out.data == before + s && Tracks(starts, ends, spans)
    modifies out
    ensures match Codec.PatchOne(p, l, k, spans, s)
            case Err(error) => r == Err(error)
            case Ok(t) => r == Ok(()) && out.data == before + t
  {
    var c := l.checksums[k];
    var f := l.fields[c.fieldId];
    var digest := DigestOf(p, l, c, layoutStart, starts, ends, out, before, s, spans);
    if digest.None? {
      return Err(Codec.UnknownAlgorithm);
    }
    var start := starts[c.fieldId];
    if digest.value >= Pow256(f.width) || layoutStart + start > |out.data| {
      return Err(Codec.BadNumber);
    }
    var bytes := ToBytes(digest.value, f.width, f.order);
    PatchBehind(before, s, start, bytes);
    out.Assign(layoutStart + start, bytes);
    return Ok(());
  }

  /** The digest of a checksum's range of the bytes written so far. */
  method DigestOf(p: Protocol, l: Layout, c: Checksum, layoutStart: nat, starts: map<nat, nat>, ends: map<nat, nat>,
                  out: ByteBuffer, ghost before: seq<byte>, ghost s: seq<byte>, ghost spans: seq<Codec.Span>)
    returns (digest: Option<nat>)
    requires AnchorWellFormed(l, c.from) && AnchorWellFormed(l, c.to) && |spans| == |l.fields|
    requires |before| == layoutStart && out.data == before + s && Tracks(starts, ends, spans)
    ensures digest == p.registry(c.algorithm, Codec.Slice(s, Codec.AnchorOffset(c.from, spans, |s|), Codec.AnchorOffset(c.to, spans, |s|)))
  {
    var relativeLength := |out.data| - layoutStart;
    var from := AnchorAt(c.from, starts, ends, relativeLength);
    var to := AnchorAt(c.to, starts, ends, relativeLength);
    ClampedSliceBehind(before, s, from, to);
    digest := p.registry(c.algorithm, Codec.Slice(out.data, layoutStart + from, layoutStart + to));
  }

  // ----- Decoding -----

  /** The dictionary a layout is decoded into. */
  class FieldMap {
    var entries: Mapping

    constructor ()
      ensures entries == map[]
    {
      entries := map[];
    }

    method Set(name: Name, v: Value)
      modifies this
      ensures entries == old(entries)[name := v]
    {
      entries := entries[name := v];
    }
  }

  lemma {:induction false} DecodeFieldsStop(p: Protocol, l: Layout, frame: seq<byte>, base: nat, i: nat, n: nat)
    requires Compiled(p, l) && i <= n <= |l.fields| && Codec.DecodeFields(p, l, frame, base, i).Err?
    ensures Codec.DecodeFields(p, l, frame, base, n).Err?
    ensures Codec.DecodeFields(p, l, frame, base, n).error == Codec.DecodeFields(p, l, frame, base, i).error
    decreases n
  {
    if i < n {
      DecodeFieldsStop(p, l, frame, base, i, n - 1);
    }
  }

  lemma {:induction false} DecodeItemsStop(p: Protocol, e: Layout, frame: seq<byte>, at: nat, i: nat, n: nat)
    requires Compiled(p, e) && i <= n && Codec.DecodeItems(p, e, frame, at, i).Err?
    ensures Codec.DecodeItems(p, e, frame, at, n).Err?
    ensures Codec.DecodeItems(p, e, frame, at, n).error == Codec.DecodeItems(p, e, frame, at, i).error
    decreases n
  {
    if i < n {
      DecodeItemsStop(p, e, frame, at, i, n - 1);
    }
  }

  lemma {:induction false} VerifyChecksumsStop(p: Protocol, l: Layout, frame: seq<byte>, base: nat, st: Codec.Decoding,
                                               limit: nat, i: nat, n: nat)
    requires ChecksumsWellFormed(l) && |st.spans| == |l.fields| && i <= n <= |l.checksums|
    requires Codec.VerifyChecksums(p, l, frame, base, st, limit, i).Err?
    ensures Codec.VerifyChecksums(p, l, frame, base, st, limit, n) == Codec.VerifyChecksums(p, l, frame, base, st, limit, i)
    decreases n
  {
    if i < n {
      VerifyChecksumsStop(p, l, frame, base, st, limit, i, n - 1);
    }
  }

  /** Decodes one layout from `frame[base..]`. */
  method DecodeLayout(p: Protocol, l: Layout, frame: seq<byte>, base: nat, bounded: bool)
    returns (r: Result<(Mapping, nat), DecodeStatus>)
    requires Compiled(p, l)
    ensures r == Codec.DecodeLayout(p, l, frame, base, bounded)
    decreases Depth(p, l), 4, 0
  {
    var available := |frame| - base;
    if available < l.minimumSize {
      return Err(Codec.SchemaMismatch);
    }
    if l.isMessage && Codec.Slice(frame, base, base + |l.dispatchPrefix|) != l.dispatchPrefix {
      return Err(Codec.SchemaMismatch);
    }
    var out := new FieldMap();
    var fields := DecodeAllFields(p, l, frame, base, out);
    if fields.Err? {
      return Err(fields.error);
    }
    var (offset, starts, ends) := fields.value;
    ghost var st := Codec.DecodeFields(p, l, frame, base, |l.fields|).value;
    if (if l.isMessage then !l.allowTrailing else bounded) && offset != available {
      return Err(Codec.SchemaMismatch);
    }
    var limit := if l.isMessage && l.allowTrailing then available else offset;
    var verdict := CheckChecksums(p, l, frame, base, out.entries, starts, ends, limit, st);
    if verdict.Err? {
      return Err(verdict.error);
    }
    return Ok((out.entries, offset));
  }

  /** The first `i` fields decoded. */
  ghost predicate DecodedTo(p: Protocol, l: Layout, frame: seq<byte>, base: nat, i: nat, st: Codec.Decoding)
    requires Compiled(p, l) && i <= |l.fields|
  {
    Codec.DecodeFields(p, l, frame, base, i) == Ok(st)
  }

  /** Decodes the fields in turn into `out`; where each lay is noted only when checksums need it. */
  method DecodeAllFields(p: Protocol, l: Layout, frame: seq<byte>, base: nat, out: FieldMap)
    returns (r: Result<(nat, map<nat, nat>, map<nat, nat>), DecodeStatus>)
    requires Compiled(p, l) && base <= |frame| && out.entries == map[]
    modifies out
    ensures match Codec.DecodeFields(p, l, frame, base, |l.fields|)
            case Err(error) => r == Err(error)
            case Ok(st) =>
              && out.entries == st.out && r.Ok? && r.value.0 == st.offset
              && (l.checksums != [] ==> Tracks(r.value.1, r.value.2, st.spans))
    decreases Depth(p, l), 3, 0
  {
    var offset := 0;
    var trackOffsets := l.checksums != [];
    var starts: map<nat, nat>, ends: map<nat, nat> := map[], map[];
    ghost var st := Codec.Decoding(map[], 0, []);
    for i := 0 to |l.fields|
      invariant DecodedTo(p, l, frame, base, i, st)
      invariant out.entries == st.out && offset == st.offset
      invariant trackOffsets ==> Tracks(starts, ends, st.spans)
    {
      var step := DecodeNext(p, l, i, frame, base, offset, out, st);
      if step.Err? {
        DecodeFieldsStop(p, l, frame, base, i + 1, |l.fields|);
        return Err(step.error);
      }
      if trackOffsets {
        starts, ends := starts[i := step.value.start], ends[i := step.value.end];
      }
      offset := step.value.end;
      st := Codec.DecodeOne(p, l, frame, base, i, st).value;
    }
    return Ok((offset, starts, ends));
  }

  /** Decodes field `i`, if it is present, behind the fields before it. */
  method DecodeNext(p: Protocol, l: Layout, i: nat, frame: seq<byte>, base: nat, offset: nat, out: FieldMap,
                    ghost st: Codec.Decoding)
    returns (r: Result<Codec.Span, DecodeStatus>)
    requires Compiled(p, l) && i < |l.fields| && out.entries == st.out && offset == st.offset
    modifies out
    ensures match Codec.DecodeOne(p, l, frame, base, i, st)
            case Err(error) => r == Err(error)
            case Ok(next) => r == Ok(next.spans[|st.spans|]) && out.entries == next.out && r.value.end == next.offset
    decreases Depth(p, l), 2, 0
  {
    var present := Codec.Present(l, i, out.entries);
    if present.None? {
      return Err(Codec.MissingKey);
    }
    if present == Some(false) {
      return Ok(Codec.Span(offset, offset));
    }
    var start := AlignUp(offset, l.fields[i].alignment);
    var end := DecodeField(p, l, i, frame, base, start, out);
    if end.Err? {
      return Err(end.error);
    }
    return Ok(Codec.Span(start, end.value));
  }

  /** Decodes a present field at `offset` into `out` and returns the offset behind it. */
  method DecodeField(p: Protocol, l: Layout, i: nat, frame: seq<byte>, base: nat, offset: nat, out: FieldMap)
    returns (r: Result<nat, DecodeStatus>)
    requires Compiled(p, l) && i < |l.fields|
    modifies out
    ensures match Codec.DecodeValue(p, l, i, frame, base, offset, old(out.entries))
            case Err(error) => r == Err(error)
            case Ok((v, size)) => r == Ok(offset + size) && out.entries == old(out.entries)[l.fields[i].name := v]
    decreases Depth(p, l), 1, 0
  {
    assert FieldWellFormed(p, l, i);
    var f := l.fields[i];
    if f.Scalar() || f.kind.Raw? || f.kind.Text? {
      r := DecodeLeaf(p, l, i, frame, base, offset, out);
    } else if f.kind.Nested? {
      NestedIsCompiled(p, l, f, f.structId);
      var inner := DecodeLayout(p, p.structs[f.structId], frame, base + offset, false);
      if inner.Err? {
        return Err(inner.error);
      }
      out.Set(f.name, Codec.Rec(inner.value.0));
      return Ok(offset + inner.value.1);
    } else if f.kind.Collection? {
      NestedIsCompiled(p, l, f, f.structId);
      var e := p.structs[f.structId];
      var count := if f.dynamicCount then Codec.Decoded(l, f.countFrom, out.entries) else Ok(f.fixedCount);
      if count.Err? {
        return Err(count.error);
      }
      if e.minimumSize > 0 && (base + offset > |frame| || count.value > (|frame| - base - offset) / e.minimumSize) {
        return Err(Codec.SchemaMismatch);
      }
      var elements := DecodeElements(p, e, frame, base + offset, count.value);
      if elements.Err? {
        return Err(elements.error);
      }
      out.Set(f.name, Codec.List(elements.value.0));
      return Ok(offset + elements.value.1);
    } else {
      r := DecodeVariant(p, l, i, frame, base, offset, out);
    }
  }

  /** A scalar, a byte or a string field. */
  method DecodeLeaf(p: Protocol, l: Layout, i: nat, frame: seq<byte>, base: nat, offset: nat, out: FieldMap)
    returns (r: Result<nat, DecodeStatus>)
    requires Compiled(p, l) && i < |l.fields|
    requires l.fields[i].Scalar() || l.fields[i].kind.Raw? || l.fields[i].kind.Text?
    modifies out
    ensures match Codec.DecodeValue(p, l, i, frame, base, offset, old(out.entries))
            case Err(error) => r == Err(error)
            case Ok((v, size)) => r == Ok(offset + size) && out.entries == old(out.entries)[l.fields[i].name := v]
  {
    assert FieldWellFormed(p, l, i);
    var f := l.fields[i];
    if f.Scalar() {
      if base + offset + f.width > |frame| {
        return Err(Codec.SchemaMismatch);
      }
      var v := Codec.ReadScalar(f, frame[base + offset..base + offset + f.width]);
      if f.hasExpected && v != Codec.Num(f.expected) {
        return Err(Codec.InvalidData);
      }
      out.Set(f.name, v);
      return Ok(offset + f.width);
    }
    var size := if f.dynamicSize then Codec.Decoded(l, f.sizeFrom, out.entries) else Ok(f.fixedSize);
    if size.Err? {
      return Err(size.error);
    }
    var payload := Codec.DecodePayload(f, frame, base + offset, size.value);
    if payload.Err? {
      return Err(payload.error);
    }
    out.Set(f.name, payload.value.0);
    return Ok(offset + size.value);
  }

  /** A tagged variant: the struct its tag selects. */
  method DecodeVariant(p: Protocol, l: Layout, i: nat, frame: seq<byte>, base: nat, offset: nat, out: FieldMap)
    returns (r: Result<nat, DecodeStatus>)
    requires Compiled(p, l) && i < |l.fields| && l.fields[i].kind.Variant?
    modifies out
    ensures match Codec.DecodeValue(p, l, i, frame, base, offset, old(out.entries))
            case Err(error) => r == Err(error)
            case Ok((v, size)) => r == Ok(offset + size) && out.entries == old(out.entries)[l.fields[i].name := v]
    decreases Depth(p, l), 0, 0
  {
    assert FieldWellFormed(p, l, i);
    var f := l.fields[i];
    var tag := Codec.Decoded(l, f.tagFrom, out.entries);
    if tag.Err? {
      return Err(tag.error);
    }
    var k := FindCase(f.cases, tag.value);
    if k.None? {
      return Err(Codec.InvalidData);
    }
    assert CaseWellFormed(p, f, k.value);
    NestedIsCompiled(p, l, f, f.cases[k.value].structId);
    var inner := DecodeLayout(p, p.structs[f.cases[k.value].structId], frame, base + offset, false);
    if inner.Err? {
      return Err(inner.error);
    }
    out.Set(f.name, Codec.Rec(inner.value.0));
    return Ok(offset + inner.value.1);
  }

  /** Decodes `count` elements back to back. */
  method DecodeElements(p: Protocol, e: Layout, frame: seq<byte>, at: nat, count: nat)
    returns (r: Result<(seq<Value>, nat), DecodeStatus>)
    requires Compiled(p, e)
    ensures r == Codec.DecodeItems(p, e, frame, at, count)
    decreases Depth(p, e), 6, 0
  {
    var elements: seq<Value> := [];
    var size := 0;
    for i := 0 to count
      invariant Codec.DecodeItems(p, e, frame, at, i) == Ok((elements, size))
    {
      var element := DecodeElement(p, e, frame, at, i, elements, size);
      if element.Err? {
        DecodeItemsStop(p, e, frame, at, i + 1, count);
        return Err(element.error);
      }
      elements, size := elements + [Codec.Rec(element.value.0)], size + element.value.1;
    }
    return Ok((elements, size));
  }

  /** Decodes the next element; one that consumes nothing is refused. */
  method DecodeElement(p: Protocol, e: Layout, frame: seq<byte>, at: nat, i: nat, ghost elements: seq<Value>, size: nat)
    returns (r: Result<(Mapping, nat), DecodeStatus>)
    requires Compiled(p, e) && Codec.DecodeItems(p, e, frame, at, i) == Ok((elements, size))
    ensures match r
            case Err(error) => Codec.DecodeItems(p, e, frame, at, i + 1) == Err(error)
            case Ok((m, consumed)) =>
              Codec.DecodeItems(p, e, frame, at, i + 1) == Ok((elements + [Codec.Rec(m)], size + consumed))
    decreases Depth(p, e), 5, 0
  {
    if at + size > |frame| {
      return Err(Codec.SchemaMismatch);
    }
    r := DecodeLayout(p, e, frame, at + size, false);
    if r.Ok? && r.value.1 == 0 {
      return Err(Codec.SchemaMismatch);
    }
  }

  /** Compares every checksum with the value decoded for it. */
  method CheckChecksums(p: Protocol, l: Layout, frame: seq<byte>, base: nat, out: Mapping,
                        starts: map<nat, nat>, ends: map<nat, nat>, limit: nat, ghost st: Codec.Decoding)
    returns (r: Result<(), DecodeStatus>)
    requires ChecksumsWellFormed(l) && |st.spans| == |l.fields| && st.out == out
    requires l.checksums != [] ==> Tracks(starts, ends, st.spans)
    ensures r == Codec.VerifyChecksums(p, l, frame, base, st, limit, |l.checksums|)
  {
    for k := 0 to |l.checksums|
      invariant Codec.VerifyChecksums(p, l, frame, base, st, limit, k) == Ok(())
    {
      assert ChecksumWellFormed(l, k);
      var verdict := CheckChecksum(p, l, k, frame, base, out, starts, ends, limit, st);
      if verdict.Err? {
        VerifyChecksumsStop(p, l, frame, base, st, limit, k + 1, |l.checksums|);
        return Err(verdict.error);
      }
    }
    return Ok(());
  }

  method CheckChecksum(p: Protocol, l: Layout, k: nat, frame: seq<byte>, base: nat, out: Mapping,
                       starts: map<nat, nat>, ends: map<nat, nat>, limit: nat, ghost st: Codec.Decoding)
    returns (r: Result<(), DecodeStatus>)
    requires k < |l.checksums| && ChecksumWellFormed(l, k) && |st.spans| == |l.fields| && st.out == out
    requires Tracks(starts, ends, st.spans)
    ensures r == Codec.VerifyOne(p, l, k, frame, base, st, limit)
  {
    var c := l.checksums[k];
    var from, to := AnchorAt(c.from, starts, ends, limit), AnchorAt(c.to, starts, ends, limit);
    if from > to || to > limit {
      return Err(Codec.SchemaMismatch);
    }
    var digest := p.registry(c.algorithm, Codec.Slice(frame, base + from, base + to));
    if digest.None? {
      return Err(Codec.SchemaMismatch);
    }
    var name := l.fields[c.fieldId].name;
    if name !in out {
      return Err(Codec.MissingKey);
    }
    return if out[name] != Codec.Num(digest.value) then Err(Codec.ChecksumMismatch) else Ok(());
  }

  /** A list of records in front of those still to come. */
  function Behind(records: seq<Mapping>, rest: Result<seq<Mapping>, DecodeStatus>): Result<seq<Mapping>, DecodeStatus> {
    match rest
    case Err(error) => Err(error)
    case Ok(more) => Ok(records + more)
  }

  lemma BehindNothing(rest: Result<seq<Mapping>, DecodeStatus>)
    ensures Behind([], rest) == rest
  {
    if rest.Ok? {
      assert [] + rest.value == rest.value;
    }
  }

  lemma BehindOne(records: seq<Mapping>, m: Mapping, rest: Result<seq<Mapping>, DecodeStatus>)
    ensures Behind(records, Behind([m], rest)) == Behind(records + [m], rest)
  {
    if rest.Ok? {
      assert records + ([m] + rest.value) == records + [m] + rest.value;
    }
  }

  /** Decodes records back to back until the frame is used up. */
  method DecodeSequence(p: Protocol, l: Layout, frame: seq<byte>) returns (r: Result<seq<Mapping>, DecodeStatus>)
    requires Compiled(p, l)
    ensures r == Codec.DecodeSequence(p, l, frame, 0)
  {
    var records: seq<Mapping> := [];
    var offset := 0;
    BehindNothing(Codec.DecodeSequence(p, l, frame, 0));
    while offset < |frame|
      invariant Codec.DecodeSequence(p, l, frame, 0) == Behind(records, Codec.DecodeSequence(p, l, frame, offset))
    {
      var record := DecodeLayout(p, l, frame, offset, false);
      if record.Err? {
        return Err(record.error);
      }
      if record.value.1 == 0 {
        return Err(Codec.SchemaMismatch);
      }
      BehindOne(records, record.value.0, Codec.DecodeSequence(p, l, frame, offset + record.value.1));
      offset := offset + record.value.1;
      records := records + [record.value.0];
    }
    assert records + [] == records;
    return Ok(records);
  }
}
