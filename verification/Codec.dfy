/** The metadata-driven codec: what encoding and decoding a layout mean.
    Offsets inside a layout are relative to the start of that layout. */
module Codec {
  import opened Prelude
  import opened Bytes
  import opened Bits
  import opened Metadata
  import Utf8

  /** A field value. Floating-point values are their raw bits; `Nil` is the null value. */
  datatype Value =
    | Nil
    | Num(n: int)
    | Flt(raw: nat)
    | Blob(bytes: seq<byte>)
    | Str(text: seq<Utf8.Scalar>)
    | Rec(fields: Mapping)
    | List(items: seq<Value>)

  type Mapping = map<Name, Value>

  datatype EncodeError =
    | MissingValue
    | NotAMapping
    | BadNumber
    | BadPayload
    | WrongSize
    | NoVariantCase
    | UnsupportedKind
    | UnknownAlgorithm

  datatype DecodeStatus = SchemaMismatch | InvalidData | ChecksumMismatch | MissingKey

  datatype Span = Span(start: nat, end: nat)

  // ----- Values -----

  /** The integer a value converts to. */
  function ToInt(v: Value): (r: Option<int>) {
    if v.Num? then Some(v.n) else None
  }

  /** The number a gate reads under a name: a missing entry counts as zero. */
  function GateNumber(m: Mapping, name: Name): (r: Option<int>) {
    if name in m then ToInt(m[name]) else Some(0)
  }

  function GateHolds(f: Field, n: int): (r: bool) {
    if f.hasCondition then n == f.conditionEquals else n / Pow2(f.presenceBit) % 2 != 0
  }

  /** Whether field `i` is present under the given mapping; a condition takes precedence over a
      presence bit. None when there is no such gating field or its value is not a number. */
  function Present(l: Layout, i: nat, m: Mapping): (r: Option<bool>)
    requires i < |l.fields|
  {
    var f := l.fields[i];
    if !f.Gated() then Some(true)
    else if GateSource(f) >= |l.fields| then None
    else
      match GateNumber(m, l.fields[GateSource(f)].name)
      case None => None
      case Some(n) => Some(GateHolds(f, n))
  }

  /** The field a gated field's presence is decided by. */
  function GateSource(f: Field): nat {
    if f.hasCondition then f.conditionField else f.presenceField
  }

  /** Values that count as empty when a mapping or a list is expected. */
  predicate Falsy(v: Value) {
    match v
    case Nil => true
    case Num(n) => n == 0
    case Flt(raw) => raw == 0
    case Blob(bytes) => bytes == []
    case Str(text) => text == []
    case Rec(m) => m == map[]
    case List(items) => items == []
  }

  /** The mapping a nested value stands for. */
  function AsMapping(v: Value): (r: Result<Mapping, EncodeError>) {
    if v.Rec? then Ok(v.fields) else if Falsy(v) then Ok(map[]) else Err(NotAMapping)
  }

  /** The elements a collection value stands for. */
  function AsItems(v: Value): (r: Result<seq<Value>, EncodeError>) {
    if v.List? then Ok(v.items) else if Falsy(v) then Ok([]) else Err(NotAMapping)
  }

  /** The length of a value that has one. */
  function LengthOf(v: Value): (r: Option<nat>) {
    match v
    case Blob(bytes) => Some(|bytes|)
    case Str(text) => Some(|text|)
    case Rec(m) => Some(|m|)
    case List(items) => Some(|items|)
    case _ => None
  }

  function EncodeText(encoding: TextEncoding, text: seq<Utf8.Scalar>): (r: Option<seq<byte>>) {
    if encoding.Utf8? then Some(Utf8.Encode(text))
    else if forall i | 0 <= i < |text| :: text[i] < 128 then Some(seq(|text|, i requires 0 <= i < |text| => text[i] as byte))
    else None
  }

  function DecodeText(encoding: TextEncoding, s: seq<byte>): (r: Option<seq<Utf8.Scalar>>) {
    if encoding.Utf8? then Utf8.Decode(s)
    else if forall i | 0 <= i < |s| :: s[i] < 128 then Some(seq(|s|, i requires 0 <= i < |s| => s[i] as Utf8.Scalar))
    else None
  }

  /** The bytes a value supplies for a byte or string field. */
  function PayloadBytes(f: Field, v: Value): (r: Result<seq<byte>, EncodeError>) {
    match v
    case Str(text) =>
      (match EncodeText(f.encoding, text)
       case None => Err(BadPayload)
       case Some(s) => Ok(s))
    case Blob(bytes) => Ok(bytes)
    case List(items) =>
      if forall i | 0 <= i < |items| :: items[i].Num? && 0 <= items[i].n < 256
      then Ok(seq(|items|, i requires 0 <= i < |items| => items[i].n as byte))
      else Err(BadPayload)
    case Num(n) => if n >= 0 then Ok(Repeat(0, n)) else Err(BadPayload)
    case Rec(m) => if m == map[] then Ok([]) else Err(BadPayload)
    case _ => Err(BadPayload)
  }

  // ----- Scalars -----

  function EncodeScalar(f: Field, v: Value): (r: Result<seq<byte>, EncodeError>)
    ensures r.Ok? ==> |r.value| == f.width
  {
    match f.kind
    case Unsigned => EncodeUnsigned(f, v)
    case Enumeration => EncodeUnsigned(f, v)
    case Signed =>
      if v.Num? && 0 - Pow256(f.width) <= 2 * v.n < Pow256(f.width)
      then Ok(ToBytes(FromSigned(v.n, f.width), f.width, f.order)) else Err(BadNumber)
    case Float32 => EncodeFloat(f, v)
    case Float64 => EncodeFloat(f, v)
    case _ => Err(UnsupportedKind)
  }

  function EncodeUnsigned(f: Field, v: Value): (r: Result<seq<byte>, EncodeError>)
    ensures r.Ok? ==> |r.value| == f.width
  {
    if v.Num? && 0 <= v.n < Pow256(f.width) then Ok(ToBytes(v.n, f.width, f.order)) else Err(BadNumber)
  }

  function EncodeFloat(f: Field, v: Value): (r: Result<seq<byte>, EncodeError>)
    ensures r.Ok? ==> |r.value| == f.width
  {
    if v.Flt? && v.raw < Pow256(f.width) then Ok(ToBytes(v.raw, f.width, f.order)) else Err(BadNumber)
  }

  function ReadScalar(f: Field, s: seq<byte>): (v: Value)
    requires f.Scalar() && |s| == f.width
  {
    var raw := FromBytes(s, f.order);
    if f.kind.Float32? || f.kind.Float64? then Flt(raw)
    else if f.kind.Signed? then Num(ToSigned(raw, f.width))
    else Num(raw)
  }

  // ----- Encoding -----

  /** Lengths and counts taken from the data, by the id of the field that carries them, and the
      payloads they were taken from, by the id of the field that holds them. */
  datatype Derived = Derived(lengths: map<nat, nat>, payloads: map<nat, seq<byte>>)

  function DeriveOne(p: Protocol, l: Layout, m: Mapping, i: nat, d: Derived): (r: Result<Derived, EncodeError>)
    requires LayoutWellFormed(p, l) && i < |l.fields|
  {
    var f := l.fields[i];
    match Present(l, i, m)
    case None => Err(BadNumber)
    case Some(false) => Ok(d)
    case Some(true) =>
      if (f.kind.Raw? || f.kind.Text?) && f.dynamicSize then
        if f.name !in m || m[f.name].Nil? then Ok(d)
        else
          match PayloadBytes(f, m[f.name])
          case Err(error) => Err(error)
          case Ok(payload) =>
          Ok(Derived(d.lengths[f.sizeFrom := |payload|], d.payloads[f.id := payload]))
      else if f.kind.Collection? && f.dynamicCount then
        if f.name !in m || m[f.name].Nil? then Ok(d)
        else
          match LengthOf(m[f.name])
          case None => Err(NotAMapping)
          case Some(n) => Ok(d.(lengths := d.lengths[f.countFrom := n]))
      else Ok(d)
  }

  /** Derived values of the first `n` fields. */
  function Derive(p: Protocol, l: Layout, m: Mapping, n: nat): (r: Result<Derived, EncodeError>)
    requires LayoutWellFormed(p, l) && n <= |l.fields|
  {
    if n == 0 then Ok(Derived(map[], map[]))
    else
      match Derive(p, l, m, n - 1)
      case Err(error) => Err(error)
      case Ok(d) =>
      DeriveOne(p, l, m, n - 1, d)
  }

  /** Bytes written so far and where each field went. */
  datatype Written = Written(bytes: seq<byte>, spans: seq<Span>)

  /** What one field adds: nothing when it is absent, otherwise its bytes behind zero padding. */
  datatype Piece = Skip | Put(alignment: nat, bytes: seq<byte>)

  function Append(w: Written, piece: Piece): (r: Written)
    ensures |r.spans| == |w.spans| + 1
  {
    match piece
    case Skip => Written(w.bytes, w.spans + [Span(|w.bytes|, |w.bytes|)])
    case Put(alignment, bytes) =>
      var start := AlignUp(|w.bytes|, alignment);
      Written(w.bytes + Repeat(0, start - |w.bytes|) + bytes, w.spans + [Span(start, start + |bytes|)])
  }

  predicate IsChecksumField(l: Layout, i: nat) {
    exists c :: c in l.checksums && c.fieldId == i
  }

  /** The bytes a layout encodes to under a mapping. */
  function EncodeLayout(p: Protocol, l: Layout, m: Mapping): (r: Result<seq<byte>, EncodeError>)
    requires Compiled(p, l)
    decreases Depth(p, l), 4, 0
  {
    match Derive(p, l, m, |l.fields|)
    case Err(error) => Err(error)
    case Ok(d) =>
    match EncodeFields(p, l, m, d, |l.fields|)
    case Err(error) => Err(error)
    case Ok(w) =>
    PatchChecksums(p, l, w, |l.checksums|)
  }

  /** The first `n` fields, checksum fields still zero. */
  function EncodeFields(p: Protocol, l: Layout, m: Mapping, d: Derived, n: nat): (r: Result<Written, EncodeError>)
    requires Compiled(p, l) && n <= |l.fields|
    ensures r.Ok? ==> |r.value.spans| == n
    decreases Depth(p, l), 3, n
  {
    if n == 0 then Ok(Written([], []))
    else
      match EncodeFields(p, l, m, d, n - 1)
      case Err(error) => Err(error)
      case Ok(w) =>
      match PieceOf(p, l, m, d, n - 1)
      case Err(error) => Err(error)
      case Ok(piece) =>
      Ok(Append(w, piece))
  }

  function PieceOf(p: Protocol, l: Layout, m: Mapping, d: Derived, i: nat): (r: Result<Piece, EncodeError>)
    requires Compiled(p, l) && i < |l.fields|
    decreases Depth(p, l), 2, 0
  {
    match Present(l, i, m)
    case None => Err(BadNumber)
    case Some(false) => Ok(Skip)
    case Some(true) =>
      match FieldBytes(p, l, m, d, i)
      case Err(error) => Err(error)
      case Ok(s) =>
      Ok(Put(l.fields[i].alignment, s))
  }

  /** The bytes of a present field: zero for a checksum, the derived value, the expected constant,
      the fill, or the encoding of the supplied value, in this order of precedence. */
  function FieldBytes(p: Protocol, l: Layout, m: Mapping, d: Derived, i: nat): (r: Result<seq<byte>, EncodeError>)
    requires Compiled(p, l) && i < |l.fields|
    decreases Depth(p, l), 1, 0
  {
    var f := l.fields[i];
    if IsChecksumField(l, f.id) then Ok(Repeat(0, f.width))
    else if f.id in d.lengths then EncodeScalar(f, Num(d.lengths[f.id]))
    else if f.hasExpected then EncodeScalar(f, Num(f.expected))
    else if f.reserved then Ok(Repeat(f.fill, f.fixedSize))
    else if f.name !in m then Err(MissingValue)
    else EncodeValue(p, l, m, d, i, m[f.name])
  }

  function EncodeValue(p: Protocol, l: Layout, m: Mapping, d: Derived, i: nat, v: Value)
    : (r: Result<seq<byte>, EncodeError>)
    requires Compiled(p, l) && i < |l.fields|
    decreases Depth(p, l), 0, 0
  {
    assert FieldWellFormed(p, l, i);
    var f := l.fields[i];
    if f.Scalar() then EncodeScalar(f, v)
    else if f.kind.Raw? || f.kind.Text? then EncodePayload(f, d, v)
    else if f.kind.Nested? then
      NestedIsCompiled(p, l, f, f.structId);
      match AsMapping(v)
      case Err(error) => Err(error)
      case Ok(inner) =>
      EncodeLayout(p, p.structs[f.structId], inner)
    else if f.kind.Collection? then
      NestedIsCompiled(p, l, f, f.structId);
      match AsItems(v)
      case Err(error) => Err(error)
      case Ok(items) =>
      EncodeItems(p, p.structs[f.structId], items)
    else
      match SelectCase(l, f, m)
      case Err(error) => Err(error)
      case Ok(k) =>
      assert CaseWellFormed(p, f, k);
      NestedIsCompiled(p, l, f, f.cases[k].structId);
      match AsMapping(v)
      case Err(error) => Err(error)
      case Ok(inner) =>
      EncodeLayout(p, p.structs[f.cases[k].structId], inner)
  }

  function EncodePayload(f: Field, d: Derived, v: Value): (r: Result<seq<byte>, EncodeError>) {
    match if f.id in d.payloads then Ok(d.payloads[f.id]) else PayloadBytes(f, v)
    case Err(error) => Err(error)
    case Ok(payload) =>
    if !f.dynamicSize && |payload| != f.fixedSize then Err(WrongSize) else Ok(payload)
  }

  /** The case the supplied tag value selects. */
  function SelectCase(l: Layout, f: Field, m: Mapping): (r: Result<nat, EncodeError>)
    requires f.tagFrom < |l.fields|
    ensures r.Ok? ==> r.value < |f.cases|
  {
    var tagName := l.fields[f.tagFrom].name;
    if tagName !in m then Err(MissingValue)
    else
      match ToInt(m[tagName])
      case None => Err(BadNumber)
      case Some(tag) =>
        match FindCase(f.cases, tag, 0)
        case None => Err(NoVariantCase)
        case Some(k) => Ok(k)
  }

  /** The first case at or after `from` whose tag matches. */
  function FindCase(cases: seq<VariantCase>, tag: int, from: nat): (r: Option<nat>)
    requires from <= |cases|
    ensures r.Some? ==> from <= r.value < |cases| && cases[r.value].tag == tag
    ensures r.None? ==> forall k | from <= k < |cases| :: cases[k].tag != tag
    decreases |cases| - from
  {
    if from == |cases| then None
    else if cases[from].tag == tag then Some(from)
    else FindCase(cases, tag, from + 1)
  }

  /** The elements of a collection, back to back. */
  function EncodeItems(p: Protocol, e: Layout, items: seq<Value>): (r: Result<seq<byte>, EncodeError>)
    requires Compiled(p, e)
    decreases Depth(p, e), 5, |items|
  {
    if items == [] then Ok([])
    else
      var last := items[|items| - 1];
      match EncodeItems(p, e, items[..|items| - 1])
      case Err(error) => Err(error)
      case Ok(before) =>
      match if last.Rec? then Ok(last.fields) else Err(NotAMapping)
      case Err(error) => Err(error)
      case Ok(inner) =>
      match EncodeLayout(p, e, inner)
      case Err(error) => Err(error)
      case Ok(s) =>
      Ok(before + s)
  }

  /** Where an anchor points, given where the fields went and where the frame ends. */
  function AnchorOffset(a: Anchor, spans: seq<Span>, total: nat): (r: nat)
    requires a.kind.FrameStart? || a.kind.FrameEnd? || a.fieldId < |spans|
  {
    match a.kind
    case FrameStart => 0
    case FrameEnd => total
    case FieldStart => spans[a.fieldId].start
    case BeforeSelf => spans[a.fieldId].start
    case FieldEnd => spans[a.fieldId].end
    case AfterSelf => spans[a.fieldId].end
  }

  /** A slice with out-of-range bounds clamped. */
  function Slice(s: seq<byte>, from: nat, to: nat): (r: seq<byte>) {
    var end := if to <= |s| then to else |s|;
    if from <= end then s[from..end] else []
  }

  /** Slice assignment: replaces the bytes from `start`, growing the buffer when it is too short. */
  function Patch(s: seq<byte>, start: nat, new_: seq<byte>): (r: seq<byte>)
    requires start <= |s|
  {
    s[..start] + new_ + (if start + |new_| <= |s| then s[start + |new_|..] else [])
  }

  /** The frame after the first `n` checksums have been computed and written. */
  function PatchChecksums(p: Protocol, l: Layout, w: Written, n: nat): (r: Result<seq<byte>, EncodeError>)
    requires ChecksumsWellFormed(l) && |w.spans| == |l.fields| && n <= |l.checksums|
  {
    if n == 0 then Ok(w.bytes)
    else
      match PatchChecksums(p, l, w, n - 1)
      case Err(error) => Err(error)
      case Ok(s) =>
      PatchOne(p, l, n - 1, w.spans, s)
  }

  function PatchOne(p: Protocol, l: Layout, k: nat, spans: seq<Span>, s: seq<byte>): (r: Result<seq<byte>, EncodeError>)
    requires k < |l.checksums| && ChecksumWellFormed(l, k) && |spans| == |l.fields|
  {
    var c := l.checksums[k];
    var from := AnchorOffset(c.from, spans, |s|);
    var to := AnchorOffset(c.to, spans, |s|);
    match p.registry(c.algorithm, Slice(s, from, to))
    case None => Err(UnknownAlgorithm)
    case Some(digest) =>
      var f := l.fields[c.fieldId];
      if digest >= Pow256(f.width) || spans[c.fieldId].start > |s| then Err(BadNumber)
      else Ok(Patch(s, spans[c.fieldId].start, ToBytes(digest, f.width, f.order)))
  }

  // ----- Decoding -----

  /** What has been decoded so far, the offset reached, and where each field was. */
  datatype Decoding = Decoding(out: Mapping, offset: nat, spans: seq<Span>)

  /** Decodes one layout from `frame[base..]`: the mapping and the bytes consumed. */
  function DecodeLayout(p: Protocol, l: Layout, frame: seq<byte>, base: nat, bounded: bool)
    : (r: Result<(Mapping, nat), DecodeStatus>)
    requires Compiled(p, l)
    ensures r.Ok? ==> base + r.value.1 <= |frame|
    decreases Depth(p, l), 4, 0
  {
    var available := |frame| - base;
    if available < l.minimumSize then Err(SchemaMismatch)
    else if l.isMessage && Slice(frame, base, base + |l.dispatchPrefix|) != l.dispatchPrefix then Err(SchemaMismatch)
    else
      match DecodeFields(p, l, frame, base, |l.fields|)
      case Err(error) => Err(error)
      case Ok(st) =>
      if (if l.isMessage then !l.allowTrailing else bounded) && st.offset != available then Err(SchemaMismatch)
      else
        var limit := if l.isMessage && l.allowTrailing then available else st.offset;
        match VerifyChecksums(p, l, frame, base, st, limit, |l.checksums|)
        case Err(error) => Err(error)
        case Ok(_) =>
        Ok((st.out, st.offset))
  }

  function DecodeFields(p: Protocol, l: Layout, frame: seq<byte>, base: nat, n: nat)
    : (r: Result<Decoding, DecodeStatus>)
    requires Compiled(p, l) && n <= |l.fields|
    ensures r.Ok? ==> |r.value.spans| == n
    ensures r.Ok? && base <= |frame| ==> base + r.value.offset <= |frame|
    decreases Depth(p, l), 3, n
  {
    if n == 0 then Ok(Decoding(map[], 0, []))
    else
      match DecodeFields(p, l, frame, base, n - 1)
      case Err(error) => Err(error)
      case Ok(st) =>
      DecodeOne(p, l, frame, base, n - 1, st)
  }

  function DecodeOne(p: Protocol, l: Layout, frame: seq<byte>, base: nat, i: nat, st: Decoding)
    : (r: Result<Decoding, DecodeStatus>)
    requires Compiled(p, l) && i < |l.fields|
    ensures r.Ok? ==> |r.value.spans| == |st.spans| + 1
    ensures r.Ok? && base + st.offset <= |frame| ==> base + r.value.offset <= |frame|
    decreases Depth(p, l), 2, 0
  {
    var f := l.fields[i];
    match Present(l, i, st.out)
    case None => Err(MissingKey)
    case Some(false) => Ok(Decoding(st.out, st.offset, st.spans + [Span(st.offset, st.offset)]))
    case Some(true) =>
      var start := AlignUp(st.offset, f.alignment);
      match DecodeValue(p, l, i, frame, base, start, st.out)
      case Err(error) => Err(error)
      case Ok((v, size)) =>
      Ok(Decoding(st.out[f.name := v], start + size, st.spans + [Span(start, start + size)]))
  }

  /** The number an earlier field was decoded to. */
  function Decoded(l: Layout, source: nat, out: Mapping): (r: Result<nat, DecodeStatus>)
    requires source < |l.fields|
  {
    var name := l.fields[source].name;
    if name in out && out[name].Num? && out[name].n >= 0 then Ok(out[name].n) else Err(MissingKey)
  }

  /** Decodes a present field at `offset`: its value and its size. */
  function DecodeValue(p: Protocol, l: Layout, i: nat, frame: seq<byte>, base: nat, offset: nat, out: Mapping)
    : (r: Result<(Value, nat), DecodeStatus>)
    requires Compiled(p, l) && i < |l.fields|
    ensures r.Ok? ==> base + offset + r.value.1 <= |frame|
    decreases Depth(p, l), 1, 0
  {
    assert FieldWellFormed(p, l, i);
    var f := l.fields[i];
    var at := base + offset;
    if f.Scalar() then DecodeScalar(f, frame, at)
    else if f.kind.Raw? || f.kind.Text? then
      match if f.dynamicSize then Decoded(l, f.sizeFrom, out) else Ok(f.fixedSize)
      case Err(error) => Err(error)
      case Ok(size) =>
      DecodePayload(f, frame, at, size)
    else if f.kind.Nested? then
      NestedIsCompiled(p, l, f, f.structId);
      match DecodeLayout(p, p.structs[f.structId], frame, at, false)
      case Err(error) => Err(error)
      case Ok((inner, size)) =>
      Ok((Rec(inner), size))
    else if f.kind.Collection? then
      NestedIsCompiled(p, l, f, f.structId);
      var e := p.structs[f.structId];
      match if f.dynamicCount then Decoded(l, f.countFrom, out) else Ok(f.fixedCount)
      case Err(error) => Err(error)
      case Ok(count) =>
      if e.minimumSize > 0 && (at > |frame| || count > (|frame| - at) / e.minimumSize) then
        Err(SchemaMismatch)
      else
        match DecodeItems(p, e, frame, at, count)
        case Err(error) => Err(error)
        case Ok((items, size)) =>
        Ok((List(items), size))
    else
      match Decoded(l, f.tagFrom, out)
      case Err(error) => Err(error)
      case Ok(tag) =>
      (match FindCase(f.cases, tag, 0)
       case None => Err(InvalidData)
       case Some(k) =>
         assert CaseWellFormed(p, f, k);
         NestedIsCompiled(p, l, f, f.cases[k].structId);
         match DecodeLayout(p, p.structs[f.cases[k].structId], frame, at, false)
         case Err(error) => Err(error)
         case Ok((inner, size)) => Ok((Rec(inner), size)))
  }

  function DecodeScalar(f: Field, frame: seq<byte>, at: nat): (r: Result<(Value, nat), DecodeStatus>)
    requires f.Scalar()
  {
    if at + f.width > |frame| then Err(SchemaMismatch)
    else
      var v := ReadScalar(f, frame[at..at + f.width]);
      if f.hasExpected && v != Num(f.expected) then Err(InvalidData) else Ok((v, f.width))
  }

  predicate Filled(s: seq<byte>, fill: byte) {
    forall k | 0 <= k < |s| :: s[k] == fill
  }

  function DecodePayload(f: Field, frame: seq<byte>, at: nat, size: nat): (r: Result<(Value, nat), DecodeStatus>)
    ensures r.Ok? ==> at + size <= |frame| && r.value.1 == size
  {
    if at + size > |frame| then Err(SchemaMismatch)
    else
      var raw := frame[at..at + size];
      if f.kind.Text? then
        match DecodeText(f.encoding, raw)
        case None => Err(InvalidData)
        case Some(text) => Ok((Str(text), size))
      else if f.reserved && !Filled(raw, f.fill) then Err(InvalidData)
      else Ok((Blob(raw), size))
  }

  /** Decodes `n` elements back to back from `at`: the elements and their total size. */
  function DecodeItems(p: Protocol, e: Layout, frame: seq<byte>, at: nat, n: nat)
    : (r: Result<(seq<Value>, nat), DecodeStatus>)
    requires Compiled(p, e)
    ensures r.Ok? ==> |r.value.0| == n
    ensures r.Ok? && at <= |frame| ==> at + r.value.1 <= |frame|
    decreases Depth(p, e), 5, n
  {
    if n == 0 then Ok(([], 0))
    else
      match DecodeItems(p, e, frame, at, n - 1)
      case Err(error) => Err(error)
      case Ok((before, size)) =>
      if at + size > |frame| then Err(SchemaMismatch)
      else
        match DecodeLayout(p, e, frame, at + size, false)
        case Err(error) => Err(error)
        case Ok((inner, consumed)) =>
        if consumed == 0 then Err(SchemaMismatch) else Ok((before + [Rec(inner)], size + consumed))
  }

  /** Checks the first `n` checksums against the decoded values. */
  function VerifyChecksums(p: Protocol, l: Layout, frame: seq<byte>, base: nat, st: Decoding, limit: nat, n: nat)
    : (r: Result<(), DecodeStatus>)
    requires ChecksumsWellFormed(l) && |st.spans| == |l.fields| && n <= |l.checksums|
  {
    if n == 0 then Ok(())
    else
      match VerifyChecksums(p, l, frame, base, st, limit, n - 1)
      case Err(error) => Err(error)
      case Ok(_) =>
      VerifyOne(p, l, n - 1, frame, base, st, limit)
  }

  function VerifyOne(p: Protocol, l: Layout, k: nat, frame: seq<byte>, base: nat, st: Decoding, limit: nat)
    : (r: Result<(), DecodeStatus>)
    requires k < |l.checksums| && ChecksumWellFormed(l, k) && |st.spans| == |l.fields|
  {
    var c := l.checksums[k];
    var from := AnchorOffset(c.from, st.spans, limit);
    var to := AnchorOffset(c.to, st.spans, limit);
    if from > to || to > limit then Err(SchemaMismatch)
    else
      match p.registry(c.algorithm, Slice(frame, base + from, base + to))
      case None => Err(SchemaMismatch)
      case Some(digest) =>
        var name := l.fields[c.fieldId].name;
        if name !in st.out then Err(MissingKey)
        else if st.out[name] != Num(digest) then Err(ChecksumMismatch)
        else Ok(())
  }

  /** Decodes records back to back until the frame is used up. */
  function DecodeSequence(p: Protocol, l: Layout, frame: seq<byte>, offset: nat)
    : (r: Result<seq<Mapping>, DecodeStatus>)
    requires Compiled(p, l)
    decreases if offset < |frame| then |frame| - offset else 0
  {
    if offset >= |frame| then Ok([])
    else
      match DecodeLayout(p, l, frame, offset, false)
      case Err(error) => Err(error)
      case Ok((m, consumed)) =>
      if consumed == 0 then Err(SchemaMismatch)
      else
        match DecodeSequence(p, l, frame, offset + consumed)
        case Err(error) => Err(error)
        case Ok(rest) =>
        Ok([m] + rest)
  }
}
