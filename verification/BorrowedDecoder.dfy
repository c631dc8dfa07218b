/** The borrowed-view decoder: it records where every field of a layout lies in a frame, without copying,
    trusting the sizes the compiler worked out. Validation rules are not part of this model. */
module BorrowedDecoder {
  import opened Prelude
  import opened Bytes
  import opened Bits
  import opened Metadata
  import Codec
  import SchemaLayouts

  datatype Status = SchemaMismatch | InvalidData | ChecksumMismatch

  /** Where a field lies, and its raw value when it is a scalar. */
  datatype Slot = Slot(present: bool, offset: nat, size: nat, raw: Option<nat>)

  datatype Outcome = Accepted(slots: seq<Slot>, consumed: nat) | Rejected(status: Status)

  datatype Sizing = Size(size: nat) | NoSize(reason: Status)

  // ----- Fields already resolved -----

  /** The raw value of an earlier counter; none when it is absent. */
  function RawUnsigned(l: Layout, slots: seq<Slot>, id: nat): (r: Option<nat>) {
    if id < |l.fields| && id < |slots| && l.fields[id].Counter() then slots[id].raw else None
  }

  predicate ConditionMatches(l: Layout, slots: seq<Slot>, f: Field) {
    f.hasCondition ==> RawUnsigned(l, slots, f.conditionField) == Some(f.conditionEquals)
  }

  predicate PresenceMatches(l: Layout, slots: seq<Slot>, f: Field) {
    f.hasPresence ==>
      match RawUnsigned(l, slots, f.presenceField)
      case None => false
      case Some(value) => value / Pow2(f.presenceBit) % 2 != 0
  }

  /** A field is present when its condition and its presence bit both say so. */
  predicate IsPresent(l: Layout, slots: seq<Slot>, f: Field) {
    ConditionMatches(l, slots, f) && PresenceMatches(l, slots, f)
  }

  /** The raw value kept for a scalar. */
  function CachedRaw(f: Field, bytes: seq<byte>): (r: Option<nat>) {
    if f.Scalar() && 0 < f.width <= 8 && |bytes| == f.width then Some(FromBytes(bytes, f.order)) else None
  }

  /** The case with the given tag, cases being in the order of their tags. */
  function FindCase(cases: seq<VariantCase>, tag: nat): (r: Option<nat>)
    ensures r.Some? ==> r.value < |cases| && cases[r.value].tag == tag
  {
    Codec.FindCase(cases, tag, 0)
  }

  // ----- Assigning a frame to a layout -----

  /** Resolves the fields of a layout in a frame that may go on behind it when `prefix` is set. */
  function Assign(p: Protocol, l: Layout, frame: seq<byte>, prefix: bool): (r: Outcome)
    requires Compiled(p, l)
    ensures r.Accepted? ==> r.consumed <= |frame| && |r.slots| == |l.fields|
    decreases Depth(p, l), 4, 0
  {
    if |frame| < l.minimumSize then Rejected(SchemaMismatch)
    else
      match AssignFields(p, l, frame, |l.fields|)
      case Rejected(status) => Rejected(status)
      case Accepted(slots, offset) =>
        if !prefix && !l.allowTrailing && offset != |frame| then Rejected(SchemaMismatch)
        else
          match CheckAll(p, l, frame, slots, |l.checksums|)
          case Some(status) => Rejected(status)
          case None => Accepted(slots, offset)
  }

  /** The first `n` fields. */
  function AssignFields(p: Protocol, l: Layout, frame: seq<byte>, n: nat): (r: Outcome)
    requires Compiled(p, l) && n <= |l.fields|
    ensures r.Accepted? ==> r.consumed <= |frame| && |r.slots| == n
    decreases Depth(p, l), 3, n
  {
    if n == 0 then Accepted([], 0)
    else
      match AssignFields(p, l, frame, n - 1)
      case Rejected(status) => Rejected(status)
      case Accepted(slots, offset) => AssignField(p, l, frame, n - 1, slots, offset)
  }

  function AssignField(p: Protocol, l: Layout, frame: seq<byte>, i: nat, slots: seq<Slot>, offset: nat): (r: Outcome)
    requires Compiled(p, l) && i < |l.fields|
    ensures r.Accepted? ==> |r.slots| == |slots| + 1 && (offset <= |frame| ==> r.consumed <= |frame|)
    decreases Depth(p, l), 2, 0
  {
    var f := l.fields[i];
    if !IsPresent(l, slots, f) then Accepted(slots + [Slot(false, offset, 0, None)], offset)
    else
      var start := AlignUp(offset, f.alignment);
      if start > |frame| then Rejected(SchemaMismatch)
      else
        match FieldSize(p, l, frame, i, slots, start)
        case NoSize(reason) => Rejected(reason)
        case Size(size) =>
          if start + size > |frame| then Rejected(SchemaMismatch)
          else
            match FieldFault(f, frame[start..start + size])
            case Some(status) => Rejected(status)
            case None => Accepted(slots + [Slot(true, start, size, CachedRaw(f, frame[start..start + size]))], start + size)
  }

  /** What is wrong with the bytes of a field, if anything. */
  function FieldFault(f: Field, bytes: seq<byte>): (r: Option<Status>) {
    if f.hasExpected && CachedRaw(f, bytes) != Some(f.expected) then Some(SchemaMismatch)
    else if f.kind.Text? && Codec.DecodeText(f.encoding, bytes).None? then Some(InvalidData)
    else if f.reserved && !Codec.Filled(bytes, f.fill) then Some(SchemaMismatch)
    else None
  }

  /** How many bytes a present field takes from `start` on. */
  function FieldSize(p: Protocol, l: Layout, frame: seq<byte>, i: nat, slots: seq<Slot>, start: nat): (r: Sizing)
    requires Compiled(p, l) && i < |l.fields| && start <= |frame|
    decreases Depth(p, l), 1, 0
  {
    assert FieldWellFormed(p, l, i);
    var f := l.fields[i];
    if f.kind.Raw? || f.kind.Text? then
      if !f.dynamicSize then Size(f.fixedSize)
      else
        match RawUnsigned(l, slots, f.sizeFrom)
        case None => NoSize(InvalidData)
        case Some(size) => if size > |frame| then NoSize(InvalidData) else Size(size)
    else if f.kind.Nested? then
      NestedIsCompiled(p, l, f, f.structId);
      SizeOf(Assign(p, p.structs[f.structId], frame[start..], true))
    else if f.kind.Collection? then
      NestedIsCompiled(p, l, f, f.structId);
      match if f.dynamicCount then RawUnsigned(l, slots, f.countFrom) else Some(f.fixedCount)
      case None => NoSize(InvalidData)
      case Some(count) => CollectionSize(p, p.structs[f.structId], frame[start..], count)
    else if f.kind.Variant? then
      match RawUnsigned(l, slots, f.tagFrom)
      case None => NoSize(InvalidData)
      case Some(tag) =>
        match FindCase(f.cases, tag)
        case None => NoSize(InvalidData)
        case Some(k) =>
          assert CaseWellFormed(p, f, k);
          NestedIsCompiled(p, l, f, f.cases[k].structId);
          SizeOf(Assign(p, p.structs[f.cases[k].structId], frame[start..], true))
    else Size(f.width)
  }

  function SizeOf(r: Outcome): Sizing {
    match r
    case Rejected(status) => NoSize(status)
    case Accepted(_, consumed) => Size(consumed)
  }

  /** The size of `count` elements at the start of `rest`: a multiplication when their size is fixed, a
      walk over them otherwise. */
  function CollectionSize(p: Protocol, e: Layout, rest: seq<byte>, count: nat): (r: Sizing)
    requires Compiled(p, e)
    decreases Depth(p, e), 6, 0
  {
    if count == 0 then Size(0)
    else if e.hasFixedSize then
      if e.minimumSize == 0 || count > |rest| / e.minimumSize then NoSize(SchemaMismatch)
      else Size(count * e.minimumSize)
    else WalkSize(p, e, rest, count)
  }

  /** The size of `n` elements, walked one by one; an empty element is refused. */
  function WalkSize(p: Protocol, e: Layout, rest: seq<byte>, n: nat): (r: Sizing)
    requires Compiled(p, e)
    ensures r.Size? ==> r.size <= |rest|
    decreases Depth(p, e), 5, n
  {
    if n == 0 then Size(0)
    else
      match WalkSize(p, e, rest, n - 1)
      case NoSize(reason) => NoSize(reason)
      case Size(total) =>
        match Assign(p, e, rest[total..], true)
        case Rejected(status) => NoSize(status)
        case Accepted(_, consumed) => if consumed == 0 then NoSize(SchemaMismatch) else Size(total + consumed)
  }

  // ----- Checksums -----

  /** Where an anchor points; a field anchor needs its field present. */
  function AnchorAt(l: Layout, a: Anchor, slots: seq<Slot>, total: nat): (r: Option<nat>) {
    match a.kind
    case FrameStart => Some(0)
    case FrameEnd => Some(total)
    case FieldStart => StartOf(slots, a.fieldId)
    case BeforeSelf => StartOf(slots, a.fieldId)
    case FieldEnd => EndOf(slots, a.fieldId)
    case AfterSelf => EndOf(slots, a.fieldId)
  }

  function StartOf(slots: seq<Slot>, id: nat): Option<nat> {
    if id < |slots| && slots[id].present then Some(slots[id].offset) else None
  }

  function EndOf(slots: seq<Slot>, id: nat): Option<nat> {
    if id < |slots| && slots[id].present then Some(slots[id].offset + slots[id].size) else None
  }

  /** The first fault among the first `n` checksums. */
  function CheckAll(p: Protocol, l: Layout, frame: seq<byte>, slots: seq<Slot>, n: nat): (r: Option<Status>)
    requires n <= |l.checksums|
  {
    if n == 0 then None
    else
      match CheckAll(p, l, frame, slots, n - 1)
      case Some(status) => Some(status)
      case None => CheckOne(p, l, frame, slots, l.checksums[n - 1])
  }

  function CheckOne(p: Protocol, l: Layout, frame: seq<byte>, slots: seq<Slot>, c: Checksum): (r: Option<Status>) {
    match AnchorAt(l, c.from, slots, |frame|)
    case None => Some(SchemaMismatch)
    case Some(from) =>
      match AnchorAt(l, c.to, slots, |frame|)
      case None => Some(SchemaMismatch)
      case Some(to) =>
        if from > to || to > |frame| then Some(SchemaMismatch)
        else
          match p.registry(c.algorithm, frame[from..to])
          case None => Some(InvalidData)
          case Some(digest) => if RawUnsigned(l, slots, c.fieldId) == Some(digest) then None else Some(ChecksumMismatch)
  }
}
