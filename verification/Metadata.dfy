/** Compiled protocol metadata: the vocabulary shared by the codec, the compiler and the decoder. */
module Metadata {
  import opened Prelude
  import opened Bytes

  datatype Kind = Unsigned | Signed | Float32 | Float64 | Enumeration | Raw | Text | Nested | Collection | Variant

  /** A field name; only equality of names matters. */
  datatype Name = Name(text: string)

  datatype TextEncoding = Ascii | Utf8

  datatype VariantCase = VariantCase(tag: nat, structId: nat)

  datatype AnchorKind = FrameStart | FrameEnd | FieldStart | FieldEnd | BeforeSelf | AfterSelf

  datatype Anchor = Anchor(kind: AnchorKind, fieldId: nat)

  datatype Checksum = Checksum(fieldId: nat, algorithm: string, from: Anchor, to: Anchor)

  datatype Field = Field(
    id: nat,
    name: Name,
    kind: Kind,
    width: nat,
    order: ByteOrder,
    encoding: TextEncoding,
    fixedSize: nat,
    dynamicSize: bool,
    sizeFrom: nat,
    structId: nat,
    alignment: nat,
    reserved: bool,
    fill: byte,
    fixedCount: nat,
    dynamicCount: bool,
    countFrom: nat,
    hasCondition: bool,
    conditionField: nat,
    conditionEquals: nat,
    hasPresence: bool,
    presenceField: nat,
    presenceBit: nat,
    tagFrom: nat,
    cases: seq<VariantCase>,
    hasExpected: bool,
    expected: nat)
  {
    predicate Gated() {
      hasCondition || hasPresence
    }

    predicate Scalar() {
      kind.Unsigned? || kind.Signed? || kind.Float32? || kind.Float64? || kind.Enumeration?
    }

    /** The kinds a length, count, tag or gate may be read from. */
    predicate Counter() {
      kind.Unsigned? || kind.Enumeration?
    }

    /** The bytes this field adds to the minimum size of its layout. */
    function MinimumContribution(): nat {
      if Gated() then 0
      else if kind.Collection? || kind.Variant? then fixedSize
      else if dynamicSize then 0
      else if kind.Raw? || kind.Text? || kind.Nested? then fixedSize
      else width
    }
  }

  datatype Layout = Layout(
    isMessage: bool,
    minimumSize: nat,
    hasFixedSize: bool,
    allowTrailing: bool,
    dispatchPrefix: seq<byte>,
    fields: seq<Field>,
    checksums: seq<Checksum>)

  /** A checksum registry: the digest of a byte range under an algorithm name, if it is known. */
  type Registry = (string, seq<byte>) -> Option<nat>

  datatype Protocol = Protocol(structs: seq<Layout>, registry: Registry)

  function AlignUp(value: nat, alignment: nat): (r: nat)
    ensures value <= r
  {
    if alignment <= 1 then value
    else
      var remainder := value % alignment;
      if remainder == 0 then value else value + (alignment - remainder)
  }

  lemma AlignUpIsMultiple(v: nat, d: nat) returns (k: nat)
    requires d > 1
    ensures AlignUp(v, d) == k * d
    ensures v <= k * d < v + d
  {
    k := if v % d == 0 then v / d else v / d + 1;
    assert v == v / d * d + v % d;
    assert (v / d + 1) * d == v / d * d + d;
  }

  /** Alignment is monotone. */
  lemma AlignUpMonotone(a: nat, b: nat, alignment: nat)
    requires a <= b
    ensures AlignUp(a, alignment) <= AlignUp(b, alignment)
  {
    if alignment > 1 {
      var i := AlignUpIsMultiple(a, alignment);
      var j := AlignUpIsMultiple(b, alignment);
      MultiplesCompare(i, j, alignment);
    }
  }

  lemma OneMoreMultiple(k: nat, d: nat)
    requires k > 0
    ensures k * d == (k - 1) * d + d
  {
  }

  /** A quotient is at least `k` when `k` divisors fit. */
  lemma QuotientAtLeast(total: nat, d: nat, k: nat)
    requires d > 0 && k * d <= total
    ensures k <= total / d
  {
    assert total == total / d * d + total % d;
    if total / d < k {
      MulMonotone(total / d + 1, k, d);
    }
  }

  lemma MulMonotone(a: nat, b: nat, c: nat)
    requires a <= b
    ensures a * c <= b * c
  {
  }

  lemma MultiplesCompare(i: nat, j: nat, d: nat)
    requires i * d < j * d + d
    ensures i * d <= j * d
  {
    OneMoreMultiple(j + 1, d);
    if j < i {
      MulMonotone(j + 1, i, d);
    } else {
      MulMonotone(i, j, d);
    }
  }

  // ----- Minimum size -----

  /** The minimum size after the first `n` fields, as the compiler accumulates it. */
  function MinimumPrefix(fields: seq<Field>, n: nat): (size: nat)
    requires n <= |fields|
  {
    if n == 0 then 0
    else
      var size := MinimumPrefix(fields, n - 1);
      var f := fields[n - 1];
      if f.Gated() then size else AlignUp(size, f.alignment) + f.MinimumContribution()
  }

  // ----- Nesting -----

  /** The structs a field may descend into. */
  function References(f: Field): set<nat> {
    match f.kind
    case Nested => {f.structId}
    case Collection => {f.structId}
    case Variant => set c | c in f.cases :: c.structId
    case _ => {}
  }

  ghost predicate NestsWithin(p: Protocol, l: Layout, depth: nat)
    decreases depth
  {
    forall f, id | f in l.fields && id in References(f) && id < |p.structs| ::
      depth > 0 && NestsWithin(p, p.structs[id], depth - 1)
  }

  /** Structs contain each other only to a finite depth: the compiler refuses anything else. */
  ghost predicate Acyclic(p: Protocol, l: Layout) {
    exists depth: nat :: NestsWithin(p, l, depth)
  }

  ghost predicate LeastDepth(p: Protocol, l: Layout, least: nat) {
    NestsWithin(p, l, least) && forall d: nat | d < least :: !NestsWithin(p, l, d)
  }

  lemma {:induction false} LeastNesting(p: Protocol, l: Layout, depth: nat) returns (least: nat)
    requires NestsWithin(p, l, depth)
    ensures LeastDepth(p, l, least)
    decreases depth
  {
    if d: nat :| d < depth && NestsWithin(p, l, d) {
      least := LeastNesting(p, l, d);
    } else {
      least := depth;
    }
  }

  /** How deep structs nest below a layout. */
  ghost function Depth(p: Protocol, l: Layout): (least: nat)
    requires Acyclic(p, l)
    ensures LeastDepth(p, l, least)
  {
    assert exists least: nat :: LeastDepth(p, l, least) by {
      var depth: nat :| NestsWithin(p, l, depth);
      var least := LeastNesting(p, l, depth);
    }
    var least: nat :| LeastDepth(p, l, least);
    least
  }

  lemma DepthDrops(p: Protocol, l: Layout, f: Field, id: nat)
    requires Acyclic(p, l) && f in l.fields && id in References(f) && id < |p.structs|
    ensures Acyclic(p, p.structs[id]) && Depth(p, p.structs[id]) < Depth(p, l)
  {
    assert NestsWithin(p, p.structs[id], Depth(p, l) - 1);
  }

  // ----- Well-formedness: what compilation guarantees -----

  predicate CounterBefore(l: Layout, source: nat, i: nat)
    requires i <= |l.fields|
  {
    source < i && l.fields[source].Counter()
  }

  predicate FieldWellFormed(p: Protocol, l: Layout, i: nat)
    requires i < |l.fields|
  {
    var f := l.fields[i];
    && f.id == i
    && (f.hasCondition ==> CounterBefore(l, f.conditionField, i))
    && (f.hasPresence ==> CounterBefore(l, f.presenceField, i))
    && (f.Scalar() ==> f.width > 0)
    && (f.hasExpected ==> f.Scalar() && !f.kind.Float32? && !f.kind.Float64?)
    && (f.dynamicSize ==> (f.kind.Raw? || f.kind.Text?) && CounterBefore(l, f.sizeFrom, i))
    && (f.dynamicCount ==> f.kind.Collection? && CounterBefore(l, f.countFrom, i))
    && (f.reserved ==> f.kind.Raw? && !f.dynamicSize && !f.Gated())
    && (f.kind.Nested? ==> f.structId < |p.structs| && f.fixedSize == p.structs[f.structId].minimumSize)
    && (f.kind.Collection? ==>
          && f.structId < |p.structs|
          && p.structs[f.structId].minimumSize > 0
          && f.fixedSize == if f.dynamicCount then 0 else f.fixedCount * p.structs[f.structId].minimumSize)
    && (f.kind.Variant? ==>
          && CounterBefore(l, f.tagFrom, i)
          && (forall k | 0 <= k < |f.cases| :: CaseWellFormed(p, f, k)))
  }

  predicate CaseWellFormed(p: Protocol, f: Field, k: nat)
    requires k < |f.cases|
  {
    f.cases[k].structId < |p.structs| && f.fixedSize <= p.structs[f.cases[k].structId].minimumSize
  }

  predicate NamesDiffer(fields: seq<Field>, i: nat, j: nat)
    requires i < |fields| && j < |fields|
  {
    fields[i].name != fields[j].name
  }

  predicate NamesDistinct(fields: seq<Field>) {
    forall i, j | 0 <= i < j < |fields| :: NamesDiffer(fields, i, j)
  }

  predicate AnchorWellFormed(l: Layout, a: Anchor) {
    a.kind.FrameStart? || a.kind.FrameEnd? || a.fieldId < |l.fields|
  }

  predicate ChecksumWellFormed(l: Layout, k: nat)
    requires k < |l.checksums|
  {
    var c := l.checksums[k];
    && c.fieldId < |l.fields|
    && l.fields[c.fieldId].Counter()
    && AnchorWellFormed(l, c.from)
    && AnchorWellFormed(l, c.to)
  }

  predicate ChecksumsDiffer(l: Layout, j: nat, k: nat)
    requires j < |l.checksums| && k < |l.checksums|
  {
    l.checksums[j].fieldId != l.checksums[k].fieldId
  }

  predicate ChecksumsWellFormed(l: Layout) {
    && (forall k | 0 <= k < |l.checksums| :: ChecksumWellFormed(l, k))
    && (forall j, k | 0 <= j < k < |l.checksums| :: ChecksumsDiffer(l, j, k))
  }

  predicate LayoutWellFormed(p: Protocol, l: Layout) {
    && NamesDistinct(l.fields)
    && (forall i | 0 <= i < |l.fields| :: FieldWellFormed(p, l, i))
    && ChecksumsWellFormed(l)
    && l.minimumSize == MinimumPrefix(l.fields, |l.fields|)
  }

  predicate StructWellFormed(p: Protocol, id: nat)
    requires id < |p.structs|
  {
    LayoutWellFormed(p, p.structs[id]) && !p.structs[id].isMessage && !p.structs[id].allowTrailing
  }

  predicate StructsWellFormed(p: Protocol) {
    forall id | 0 <= id < |p.structs| :: StructWellFormed(p, id)
  }

  /** A layout the compiler could have produced within a protocol it could have produced. */
  ghost predicate Compiled(p: Protocol, l: Layout) {
    StructsWellFormed(p) && LayoutWellFormed(p, l) && Acyclic(p, l)
  }

  lemma NestedIsCompiled(p: Protocol, l: Layout, f: Field, id: nat)
    requires Compiled(p, l) && f in l.fields && id in References(f) && id < |p.structs|
    ensures Compiled(p, p.structs[id]) && Depth(p, p.structs[id]) < Depth(p, l)
    ensures !p.structs[id].isMessage && !p.structs[id].allowTrailing
  {
    assert StructWellFormed(p, id);
    DepthDrops(p, l, f, id);
  }
}
