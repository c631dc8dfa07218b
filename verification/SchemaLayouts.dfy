/** Layout definitions, and what turning one into metadata yields field by field. */
module SchemaLayouts {
  import opened Prelude
  import opened Bytes
  import opened Metadata

  // ----- Definitions -----

  datatype CaseDefinition = CaseDefinition(tag: nat, typeName: Name)

  /** A gating field and the value or the bit it is tested for. */
  datatype Gate = Gate(field: Name, argument: nat)

  datatype AnchorDefinition = AtFrameStart | AtFrameEnd | BeforeOwn | AfterOwn | StartOf(name: Name) | EndOf(name: Name) | OtherAnchor

  datatype ChecksumDefinition = ChecksumDefinition(algorithm: string, from: AnchorDefinition, to: AnchorDefinition)

  datatype FieldDefinition = FieldDefinition(
    name: Name,
    kind: Kind,
    width: nat,
    order: ByteOrder,
    encoding: TextEncoding,
    fixedSize: nat,
    sizeFrom: Option<Name>,
    typeName: Option<Name>,
    alignment: nat,
    reserved: bool,
    fill: byte,
    fixedCount: nat,
    countFrom: Option<Name>,
    tagFrom: Option<Name>,
    cases: seq<CaseDefinition>,
    condition: Option<Gate>,
    presence: Option<Gate>,
    expected: Option<nat>,
    checksum: Option<ChecksumDefinition>)

  datatype LayoutDefinition = LayoutDefinition(name: Name, fields: seq<FieldDefinition>, allowTrailing: bool)

  datatype EnumDefinition = EnumDefinition(name: Name, width: nat, order: ByteOrder)

  datatype Definition = Definition(enums: seq<EnumDefinition>, structs: seq<LayoutDefinition>, messages: seq<LayoutDefinition>)

  datatype CompileError =
    | NoFields
    | TooManyFields
    | BadName
    | DuplicateName
    | BadWidth
    | BadAlignment
    | BadField
    | BadReference
    | UnknownType
    | RecursiveStruct
    | SizeRange
    | UnknownAlgorithm
    | BadAnchor

  const SIZE_MAX: nat := 0xFFFF_FFFF_FFFF_FFFF

  predicate ScalarWidth(width: nat) {
    width == 1 || width == 2 || width == 4 || width == 8
  }

  predicate PowerOfTwo(n: nat) {
    n == 1 || (n > 1 && n % 2 == 0 && PowerOfTwo(n / 2))
  }

  predicate EnumsUsable(d: Definition) {
    forall e | e in d.enums :: ScalarWidth(e.width)
  }

  // ----- The reference graph of the definitions -----

  /** The position of the struct with the given name. */
  function StructId(d: Definition, name: Name, from: nat := 0): (r: Option<nat>)
    requires from <= |d.structs|
    ensures r.Some? ==> from <= r.value < |d.structs| && d.structs[r.value].name == name
    ensures r.None? ==> forall k | from <= k < |d.structs| :: d.structs[k].name != name
    decreases |d.structs| - from
  {
    if from == |d.structs| then None
    else if d.structs[from].name == name then Some(from)
    else StructId(d, name, from + 1)
  }

  function EnumId(d: Definition, name: Name, from: nat := 0): (r: Option<nat>)
    requires from <= |d.enums|
    ensures r.Some? ==> from <= r.value < |d.enums| && d.enums[r.value].name == name
    ensures r.None? ==> forall k | from <= k < |d.enums| :: d.enums[k].name != name
    decreases |d.enums| - from
  {
    if from == |d.enums| then None
    else if d.enums[from].name == name then Some(from)
    else EnumId(d, name, from + 1)
  }

  /** The type names a field definition refers to as structs. */
  function TypeNames(d: Definition, f: FieldDefinition): set<Name> {
    match f.kind
    case Nested => if f.typeName.Some? && EnumId(d, f.typeName.value).None? then {f.typeName.value} else {}
    case Collection => if f.typeName.Some? then {f.typeName.value} else {}
    case Variant => set c | c in f.cases :: c.typeName
    case _ => {}
  }

  /** A field definition refers to struct `j`. */
  predicate RefersTo(d: Definition, f: FieldDefinition, j: nat) {
    exists name :: name in TypeNames(d, f) && StructId(d, name) == Some(j)
  }

  /** Struct `i` refers to struct `j`. */
  predicate Edge(d: Definition, i: nat, j: nat) {
    i < |d.structs| && j < |d.structs| && exists f :: f in d.structs[i].fields && RefersTo(d, f, j)
  }

  /** Each struct on the path refers to the next. */
  predicate IsPath(d: Definition, path: seq<nat>) {
    && (forall k | 0 <= k < |path| :: path[k] < |d.structs|)
    && (forall k | 0 <= k < |path| - 1 :: Leads(d, path, k))
  }

  predicate Leads(d: Definition, path: seq<nat>, k: nat)
    requires k < |path| - 1
  {
    Edge(d, path[k], path[k + 1])
  }

  /** Some struct leads back to itself. */
  ghost predicate Cyclic(d: Definition) {
    exists path: seq<nat> :: |path| >= 2 && IsPath(d, path) && path[0] == path[|path| - 1]
  }

  /** A path that ends where it passed before has a cycle. */
  lemma ClosedPath(d: Definition, path: seq<nat>, id: nat)
    requires IsPath(d, path) && id in path && path != [] && Edge(d, path[|path| - 1], id)
    ensures Cyclic(d)
  {
    var k :| 0 <= k < |path| && path[k] == id;
    var cycle := path[k..] + [id];
    forall m | 0 <= m < |cycle| - 1
      ensures Leads(d, cycle, m)
    {
      if m + 1 < |path| - k {
        assert Leads(d, path, k + m);
      }
    }
    assert IsPath(d, cycle) && cycle[0] == cycle[|cycle| - 1];
  }

  // ----- One field -----

  /** What is known of the fields compiled so far. */
  ghost predicate IdsMatch(ids: map<Name, nat>, fields: seq<Field>) {
    && (forall name | name in ids :: ids[name] < |fields| && fields[ids[name]].name == name)
    && (forall k | 0 <= k < |fields| :: fields[k].name in ids && ids[fields[k].name] == k && fields[k].id == k)
  }

  /** The earlier counter a field refers to by name. */
  function CounterNamed(ids: map<Name, nat>, fields: seq<Field>, name: Name): (r: Result<nat, CompileError>)
    ensures r.Ok? ==> r.value < |fields| && fields[r.value].Counter() && name in ids && ids[name] == r.value
  {
    if name in ids && ids[name] < |fields| && fields[ids[name]].Counter() then Ok(ids[name]) else Err(BadReference)
  }

  /** A compiled field with everything but its size and references. */
  function Plain(f: FieldDefinition, id: nat): Field {
    Field(id, f.name, f.kind, f.width, f.order, f.encoding, f.fixedSize, false, 0, 0,
          if f.alignment == 0 then 1 else f.alignment, f.reserved, f.fill, 0, false, 0,
          false, 0, 0, false, 0, 0, 0, [], f.expected.Some?, if f.expected.Some? then f.expected.value else 0)
  }

  function CompileBytes(f: FieldDefinition, ids: map<Name, nat>, fields: seq<Field>): (r: Result<Field, CompileError>)
    requires f.kind.Raw? || f.kind.Text?
  {
    var plain := Plain(f, |fields|);
    if f.expected.Some? || (f.fixedSize == 0) == f.sizeFrom.None? then Err(BadField)
    else
      match (if f.sizeFrom.Some? then CounterNamed(ids, fields, f.sizeFrom.value) else Ok(0))
      case Err(error) => Err(error)
      case Ok(source) =>
        if f.fixedCount != 0 || f.countFrom.Some? || f.tagFrom.Some? || f.cases != [] then Err(BadField)
        else if f.reserved && (!f.kind.Raw? || f.sizeFrom.Some? || f.fixedSize == 0) then Err(BadField)
        else if f.reserved && (f.checksum.Some? || f.condition.Some? || f.presence.Some?) then Err(BadField)
        else Ok(plain.(dynamicSize := f.sizeFrom.Some?, sizeFrom := source))
  }

  function CompileScalar(f: FieldDefinition, id: nat): (r: Result<Field, CompileError>) {
    if f.reserved then Err(BadField)
    else if !ScalarWidth(f.width) then Err(BadWidth)
    else if (f.kind.Float32? && f.width != 4) || (f.kind.Float64? && f.width != 8) then Err(BadWidth)
    else if f.fixedCount != 0 || f.countFrom.Some? || f.tagFrom.Some? || f.cases != [] then Err(BadField)
    else Ok(Plain(f, id))
  }

  /** Adds the gates of a field. */
  function AddGates(f: FieldDefinition, compiled: Field, ids: map<Name, nat>, fields: seq<Field>): (r: Result<Field, CompileError>) {
    match (if f.condition.Some? then CounterNamed(ids, fields, f.condition.value.field) else Ok(0))
    case Err(error) => Err(error)
    case Ok(condition) =>
      match (if f.presence.Some? then CounterNamed(ids, fields, f.presence.value.field) else Ok(0))
      case Err(error) => Err(error)
      case Ok(presence) =>
        if f.presence.Some? && f.presence.value.argument >= fields[presence].width * 8 then Err(BadField)
        else Ok(compiled.(
          hasCondition := f.condition.Some?, conditionField := condition,
          conditionEquals := if f.condition.Some? then f.condition.value.argument else 0,
          hasPresence := f.presence.Some?, presenceField := presence,
          presenceBit := if f.presence.Some? then f.presence.value.argument else 0))
  }

  // ----- Layouts under construction -----

  /** A layout of just these fields. */
  function Draft(fields: seq<Field>): Layout {
    Layout(false, 0, true, false, [], fields, [])
  }

  /** Field definitions on which compiling is all the checking there is: the compiler does not look at a
      reserved mark outside byte fields, nor at a constant on a floating-point field. */
  predicate Sane(f: FieldDefinition) {
    && (f.reserved ==> f.kind.Raw?)
    && (f.expected.Some? ==> !f.kind.Float32? && !f.kind.Float64?)
  }

  predicate LayoutSane(l: LayoutDefinition) {
    forall f | f in l.fields :: Sane(f)
  }

  predicate AllSane(d: Definition) {
    && (forall l | l in d.structs :: LayoutSane(l))
    && (forall l | l in d.messages :: LayoutSane(l))
  }

  /** Whether an unconditional field always has the same size. */
  predicate FieldFixed(structs: seq<Layout>, f: Field) {
    && !f.Gated() && !f.dynamicSize && !f.dynamicCount
    && (f.kind.Nested? || f.kind.Collection? ==> f.structId < |structs| && structs[f.structId].hasFixedSize)
    && (f.kind.Variant? ==> forall k | 0 <= k < |f.cases| :: CaseFixed(structs, f, k))
  }

  predicate CaseFixed(structs: seq<Layout>, f: Field, k: nat)
    requires k < |f.cases|
  {
    var id := f.cases[k].structId;
    id < |structs| && structs[id].hasFixedSize && structs[id].minimumSize == f.fixedSize
  }

  // ----- What a compiled field says of its definition -----

  /** The field at `source` is the one the definition names. */
  predicate Names(fields: seq<Field>, source: nat, name: Name) {
    source < |fields| && fields[source].name == name
  }

  /** The enum a field of a named type stands for, if it is one. */
  function EnumOf(d: Definition, f: FieldDefinition): (r: Option<nat>)
    ensures r.Some? ==> r.value < |d.enums|
  {
    if f.kind.Nested? && f.typeName.Some? then EnumId(d, f.typeName.value) else None
  }

  /** Kind, width and byte order are the definition's, or the enum's. */
  predicate SameRepresentation(d: Definition, f: FieldDefinition, g: Field) {
    match EnumOf(d, f)
    case Some(e) => g.kind.Enumeration? && g.width == d.enums[e].width && g.order == d.enums[e].order
    case None => g.kind == f.kind && g.width == f.width && g.order == f.order
  }

  predicate SameAttributes(f: FieldDefinition, g: Field) {
    && g.alignment == (if f.alignment == 0 then 1 else f.alignment)
    && g.reserved == f.reserved && g.fill == f.fill && g.encoding == f.encoding
    && g.hasExpected == f.expected.Some? && (f.expected.Some? ==> g.expected == f.expected.value)
  }

  function ResolvedCase(d: Definition, c: CaseDefinition): VariantCase {
    match StructId(d, c.typeName)
    case Some(id) => VariantCase(c.tag, id)
    case None => VariantCase(c.tag, 0)
  }

  /** The cases with their struct names looked up. */
  function ResolvedCases(d: Definition, cases: seq<CaseDefinition>): (r: seq<VariantCase>)
    ensures |r| == |cases| && forall k | 0 <= k < |cases| :: r[k] == ResolvedCase(d, cases[k])
  {
    seq(|cases|, k requires 0 <= k < |cases| => ResolvedCase(d, cases[k]))
  }

  /** Sizes, counts, tags and types are the definition's, and every reference leads to the field it names. */
  predicate SameShape(d: Definition, f: FieldDefinition, fields: seq<Field>, g: Field) {
    match f.kind
    case Raw => SameSize(f, fields, g)
    case Text => SameSize(f, fields, g)
    case Nested => EnumOf(d, f).None? ==> f.typeName.Some? && StructId(d, f.typeName.value) == Some(g.structId)
    case Collection =>
      && f.typeName.Some? && StructId(d, f.typeName.value) == Some(g.structId)
      && g.fixedCount == f.fixedCount && g.dynamicCount == f.countFrom.Some?
      && (f.countFrom.Some? ==> Names(fields, g.countFrom, f.countFrom.value))
    case Variant => f.tagFrom.Some? && Names(fields, g.tagFrom, f.tagFrom.value) && g.cases == SortByTag(ResolvedCases(d, f.cases))
    case _ => true
  }

  predicate SameSize(f: FieldDefinition, fields: seq<Field>, g: Field) {
    && g.fixedSize == f.fixedSize && g.dynamicSize == f.sizeFrom.Some?
    && (f.sizeFrom.Some? ==> Names(fields, g.sizeFrom, f.sizeFrom.value))
  }

  predicate SameGates(f: FieldDefinition, fields: seq<Field>, g: Field) {
    && g.hasCondition == f.condition.Some? && g.hasPresence == f.presence.Some?
    && (f.condition.Some? ==> Names(fields, g.conditionField, f.condition.value.field) && g.conditionEquals == f.condition.value.argument)
    && (f.presence.Some? ==> Names(fields, g.presenceField, f.presence.value.field) && g.presenceBit == f.presence.value.argument)
  }

  /** Everything but its gates is carried over from the definition. */
  predicate Carries(d: Definition, f: FieldDefinition, fields: seq<Field>, g: Field) {
    SameRepresentation(d, f, g) && SameAttributes(f, g) && SameShape(d, f, fields, g)
  }

  /** What the compiler guarantees of field `i` among `fields` before its gates are added. */
  ghost predicate UngatedSound(p: Protocol, d: Definition, f: FieldDefinition, fields: seq<Field>, i: nat)
    requires i < |fields|
  {
    && fields[i].name == f.name
    && (Sane(f) ==> FieldWellFormed(p, Draft(fields), i))
    && Carries(d, f, fields, fields[i])
    && (forall name | name in TypeNames(d, f) :: StructId(d, name).Some? && StructId(d, name).value in References(fields[i]))
    && (forall id | id in References(fields[i]) :: id < |p.structs|)
  }

  /** What the compiler guarantees of field `i` among `fields`, given the structs compiled so far. */
  ghost predicate FieldSound(p: Protocol, d: Definition, f: FieldDefinition, fields: seq<Field>, i: nat)
    requires i < |fields|
  {
    UngatedSound(p, d, f, fields, i) && SameGates(f, fields, fields[i])
  }

  /** Facts about a field survive the compilation of further fields and structs. */
  lemma StaysSound(p: Protocol, p': Protocol, d: Definition, f: FieldDefinition, fields: seq<Field>, fields': seq<Field>, i: nat)
    requires i < |fields| <= |fields'| && fields'[..|fields|] == fields
    requires |p.structs| == |p'.structs| && FieldSound(p, d, f, fields, i)
    requires forall id | id in References(fields[i]) && id < |p.structs| :: p'.structs[id] == p.structs[id]
    ensures FieldSound(p', d, f, fields', i)
  {
    assert forall k | 0 <= k < |fields| :: fields'[k] == fields'[..|fields|][k] == fields[k];
    if FieldWellFormed(p, Draft(fields), i) {
      var g := fields[i];
      if g.kind.Variant? {
        forall k | 0 <= k < |g.cases|
          ensures CaseWellFormed(p', g, k)
        {
          assert CaseWellFormed(p, g, k) && g.cases[k] in g.cases;
        }
      }
      assert FieldWellFormed(p', Draft(fields'), i);
    }
  }

  // ----- What compiling a layout yields -----

  /** A constant the dispatch prefix may take in: gates and alignment are not looked at. */
  predicate Constant(f: Field) {
    f.Scalar() && f.hasExpected
  }

  function ConstantBytes(f: Field): (s: seq<byte>) {
    ToBytes(f.expected % Pow256(f.width), f.width, f.order)
  }

  /** The bytes of the leading run of constants. */
  function LeadingBytes(fields: seq<Field>): (s: seq<byte>) {
    if fields == [] || !Constant(fields[0]) then [] else ConstantBytes(fields[0]) + LeadingBytes(fields[1..])
  }

  predicate AllConstant(fields: seq<Field>) {
    forall k | 0 <= k < |fields| :: Constant(fields[k])
  }

  /** The leading constants are always there and lie end to end: nothing the prefix ignores can set them
      apart. */
  predicate PackedRun(fields: seq<Field>, offset: nat) {
    fields == [] || !Constant(fields[0]) ||
    (!fields[0].Gated() && AlignUp(offset, fields[0].alignment) == offset && PackedRun(fields[1..], offset + fields[0].width))
  }

  predicate SpellsOut(l: Layout, n: nat)
    requires n <= |l.fields|
  {
    l.dispatchPrefix <= LeadingBytes(l.fields[..n]) && PackedRun(l.fields[..n], 0)
  }

  /** The dispatch prefix is spelled out by leading constants that nothing sets apart. */
  ghost predicate PrefixSound(l: Layout) {
    exists n: nat :: n <= |l.fields| && SpellsOut(l, n)
  }

  /** That is so of a compiled layout when its run of leading constants is packed. */
  lemma PackedPrefix(l: Layout)
    requires l.dispatchPrefix == LeadingBytes(l.fields) && PackedRun(l.fields, 0)
    ensures PrefixSound(l)
  {
    assert l.fields[..|l.fields|] == l.fields;
    assert SpellsOut(l, |l.fields|);
  }

  /** The bytes lie at the offset. */
  predicate RunAt(frame: seq<byte>, offset: nat, run: seq<byte>) {
    offset + |run| <= |frame| && frame[offset..offset + |run|] == run
  }

  lemma JoinRuns(frame: seq<byte>, offset: nat, end: nat, a: seq<byte>, b: seq<byte>)
    requires offset <= end <= |frame| && frame[offset..end] == a && RunAt(frame, end, b)
    ensures RunAt(frame, offset, a + b)
  {
    Adjoin(frame, offset, end, end + |b|);
  }

  lemma NoRun(frame: seq<byte>, offset: nat, fields: seq<Field>)
    requires offset <= |frame| && (fields == [] || !Constant(fields[0]))
    ensures RunAt(frame, offset, LeadingBytes(fields))
  {
  }

  lemma FrontOfRun(frame: seq<byte>, run: seq<byte>, prefix: seq<byte>)
    requires RunAt(frame, 0, run) && prefix <= run
    ensures |prefix| <= |frame| && frame[..|prefix|] == prefix
  {
    assert frame[0..|run|][..|prefix|] == frame[..|prefix|];
  }

  /** The run from field `i` on starts with its constant. */
  lemma RunStarts(fields: seq<Field>, i: nat, n: nat, offset: nat)
    requires i < n <= |fields| && Constant(fields[i]) && PackedRun(fields[i..n], offset)
    ensures LeadingBytes(fields[i..n]) == ConstantBytes(fields[i]) + LeadingBytes(fields[i + 1..n])
    ensures !fields[i].Gated() && AlignUp(offset, fields[i].alignment) == offset
    ensures PackedRun(fields[i + 1..n], offset + fields[i].width)
  {
    assert fields[i..n][0] == fields[i] && fields[i..n][1..] == fields[i + 1..n];
  }

  lemma Modest(v: nat, m: nat)
    requires v < m
    ensures v % m == v
  {
  }

  lemma {:induction false} LeadingGrows(fields: seq<Field>, f: Field)
    ensures LeadingBytes(fields + [f]) ==
            if AllConstant(fields) && Constant(f) then LeadingBytes(fields) + ConstantBytes(f) else LeadingBytes(fields)
  {
    var all := fields + [f];
    if fields == [] {
      assert all[1..] == [];
      assert LeadingBytes(all[1..]) == [];
    } else {
      assert all[1..] == fields[1..] + [f];
      LeadingGrows(fields[1..], f);
      if Constant(fields[0]) {
        assert AllConstant(fields) <==> AllConstant(fields[1..]) by {
          assert forall k | 0 <= k < |fields| - 1 :: fields[1..][k] == fields[k + 1];
        }
      }
    }
  }

  ghost predicate AllFixed(structs: seq<Layout>, fields: seq<Field>) {
    forall k | 0 <= k < |fields| :: FieldFixed(structs, fields[k])
  }

  /** Everything the compiler guarantees of the fields compiled so far. */
  ghost predicate FieldsSound(p: Protocol, d: Definition, defs: seq<FieldDefinition>, fields: seq<Field>) {
    |fields| <= |defs| && forall i | 0 <= i < |fields| :: FieldSound(p, d, defs[i], fields, i)
  }

  // ----- Checksums of a layout -----

  datatype PendingChecksum = PendingChecksum(fieldId: nat, definition: ChecksumDefinition)

  /** The checksums the first `n` field definitions ask for, in order. */
  function DefinedChecksums(defs: seq<FieldDefinition>, n: nat): seq<PendingChecksum>
    requires n <= |defs|
  {
    if n == 0 then []
    else
      var before := DefinedChecksums(defs, n - 1);
      match defs[n - 1].checksum
      case None => before
      case Some(c) => before + [PendingChecksum(n - 1, c)]
  }

  /** The anchor is the place the definition names. */
  predicate AnchorCarried(a: AnchorDefinition, own: nat, fields: seq<Field>, r: Anchor) {
    match a
    case AtFrameStart => r.kind.FrameStart?
    case AtFrameEnd => r.kind.FrameEnd?
    case BeforeOwn => r == Anchor(BeforeSelf, own)
    case AfterOwn => r == Anchor(AfterSelf, own)
    case StartOf(name) => r.kind.FieldStart? && Names(fields, r.fieldId, name)
    case EndOf(name) => r.kind.FieldEnd? && Names(fields, r.fieldId, name)
    case OtherAnchor => false
  }

  predicate ChecksumCarried(fields: seq<Field>, pending: PendingChecksum, c: Checksum) {
    && c.fieldId == pending.fieldId && c.algorithm == pending.definition.algorithm
    && AnchorCarried(pending.definition.from, c.fieldId, fields, c.from)
    && AnchorCarried(pending.definition.to, c.fieldId, fields, c.to)
  }

  predicate AllCarried(fields: seq<Field>, pending: seq<PendingChecksum>, checksums: seq<Checksum>) {
    |checksums| == |pending| && forall k | 0 <= k < |checksums| :: ChecksumCarried(fields, pending[k], checksums[k])
  }

  ghost predicate LayoutSound(p: Protocol, d: Definition, def: LayoutDefinition, l: Layout) {
    && |l.fields| == |def.fields|
    && FieldsSound(p, d, def.fields, l.fields)
    && NamesDistinct(l.fields)
    && ChecksumsWellFormed(l)
    && AllCarried(l.fields, DefinedChecksums(def.fields, |def.fields|), l.checksums)
    && l.minimumSize == MinimumPrefix(l.fields, |l.fields|)
    && (l.hasFixedSize <==> AllFixed(p.structs, l.fields))
    && l.dispatchPrefix == LeadingBytes(l.fields)
    && (l.allowTrailing <==> l.isMessage && def.allowTrailing)
  }

  /** The structs a layout refers to. */
  ghost predicate RefersOnlyTo(fields: seq<Field>, ids: seq<nat>) {
    forall k, id | 0 <= k < |fields| && id in References(fields[k]) :: id in ids
  }

  lemma SaneIsWellFormed(p: Protocol, d: Definition, def: LayoutDefinition, l: Layout)
    requires LayoutSound(p, d, def, l) && LayoutSane(def)
    ensures LayoutWellFormed(p, l)
  {
    forall i | 0 <= i < |l.fields|
      ensures FieldWellFormed(p, l, i)
    {
      assert FieldSound(p, d, def.fields[i], l.fields, i);
      assert FieldWellFormed(p, Draft(l.fields), i);
    }
  }

  lemma NamesFromIds(ids: map<Name, nat>, fields: seq<Field>)
    requires IdsMatch(ids, fields)
    ensures NamesDistinct(fields)
  {
    forall i, j | 0 <= i < j < |fields|
      ensures NamesDiffer(fields, i, j)
    {
      assert ids[fields[i].name] == i && ids[fields[j].name] == j;
    }
  }

  lemma IdsGrow(ids: map<Name, nat>, fields: seq<Field>, f: Field)
    requires IdsMatch(ids, fields) && f.name !in ids && f.id == |fields|
    ensures IdsMatch(ids[f.name := |fields|], fields + [f])
  {
  }

  lemma MinimumGrows(fields: seq<Field>, f: Field)
    ensures MinimumPrefix(fields + [f], |fields| + 1) ==
            if f.Gated() then MinimumPrefix(fields, |fields|)
            else AlignUp(MinimumPrefix(fields, |fields|), f.alignment) + f.MinimumContribution()
  {
    SamePrefix(fields, fields + [f], |fields|);
  }

  lemma {:induction false} SamePrefix(fields: seq<Field>, longer: seq<Field>, n: nat)
    requires n <= |fields| <= |longer| && longer[..|fields|] == fields
    ensures MinimumPrefix(fields, n) == MinimumPrefix(longer, n)
    decreases n
  {
    if n > 0 {
      SamePrefix(fields, longer, n - 1);
      assert longer[n - 1] == longer[..|fields|][n - 1];
    }
  }

  lemma GatesCarry(d: Definition, f: FieldDefinition, ids: map<Name, nat>, fields: seq<Field>, g: Field, h: Field)
    requires IdsMatch(ids, fields) && AddGates(f, g, ids, fields) == Ok(h) && Carries(d, f, fields + [g], g)
    ensures Carries(d, f, fields + [h], h)
  {
    forall source: nat, name | Names(fields + [g], source, name)
      ensures Names(fields + [h], source, name)
    {
      assert source < |fields| ==> (fields + [g])[source] == (fields + [h])[source] == fields[source];
    }
  }

  lemma GatesAreSame(f: FieldDefinition, ids: map<Name, nat>, fields: seq<Field>, g: Field, h: Field)
    requires IdsMatch(ids, fields) && AddGates(f, g, ids, fields) == Ok(h)
    ensures SameGates(f, fields + [h], h)
  {
    assert forall k | 0 <= k < |fields| :: (fields + [h])[k] == fields[k];
  }

  lemma GatesWellFormed(p: Protocol, f: FieldDefinition, ids: map<Name, nat>, fields: seq<Field>, g: Field, h: Field)
    requires AddGates(f, g, ids, fields) == Ok(h) && FieldWellFormed(p, Draft(fields + [g]), |fields|) && Sane(f)
    requires g.reserved == f.reserved
    requires f.reserved && f.kind.Raw? ==> f.condition.None? && f.presence.None?
    ensures FieldWellFormed(p, Draft(fields + [h]), |fields|)
  {
    var n := |fields|;
    assert (fields + [g])[n] == g && (fields + [h])[n] == h;
    assert forall k | 0 <= k < n :: (fields + [g])[k] == (fields + [h])[k] == fields[k];
    if g.kind.Variant? {
      assert forall k | 0 <= k < |g.cases| :: CaseWellFormed(p, g, k) == CaseWellFormed(p, h, k);
    }
  }

  lemma GatesFixed(structs: seq<Layout>, f: FieldDefinition, ids: map<Name, nat>, fields: seq<Field>, g: Field, h: Field)
    requires AddGates(f, g, ids, fields) == Ok(h) && !g.Gated()
    ensures FieldFixed(structs, h) <==> FieldFixed(structs, g) && f.condition.None? && f.presence.None?
  {
    if g.kind.Variant? {
      assert forall k | 0 <= k < |g.cases| :: CaseFixed(structs, g, k) == CaseFixed(structs, h, k);
    }
  }

  lemma GatesStaySound(p: Protocol, d: Definition, f: FieldDefinition, ids: map<Name, nat>, fields: seq<Field>, g: Field, h: Field)
    requires IdsMatch(ids, fields) && AddGates(f, g, ids, fields) == Ok(h) && UngatedSound(p, d, f, fields + [g], |fields|)
    requires g.reserved == f.reserved
    requires f.reserved && f.kind.Raw? ==> f.condition.None? && f.presence.None?
    ensures UngatedSound(p, d, f, fields + [h], |fields|)
  {
    GatesCarry(d, f, ids, fields, g, h);
    assert (fields + [g])[|fields|] == g && (fields + [h])[|fields|] == h && References(h) == References(g);
    if Sane(f) {
      GatesWellFormed(p, f, ids, fields, g, h);
    }
  }

  /** Gates leave everything else about a field as it was. */
  lemma GatesSound(p: Protocol, d: Definition, f: FieldDefinition, ids: map<Name, nat>, fields: seq<Field>, g: Field, h: Field)
    requires IdsMatch(ids, fields) && AddGates(f, g, ids, fields) == Ok(h) && UngatedSound(p, d, f, fields + [g], |fields|)
    requires !g.Gated() && g.reserved == f.reserved
    requires f.reserved && f.kind.Raw? ==> f.condition.None? && f.presence.None?
    ensures FieldSound(p, d, f, fields + [h], |fields|) && References(h) == References(g) && h.id == g.id
    ensures FieldFixed(p.structs, h) <==> FieldFixed(p.structs, g) && f.condition.None? && f.presence.None?
  {
    GatesStaySound(p, d, f, ids, fields, g, h);
    GatesAreSame(f, ids, fields, g, h);
    GatesFixed(p.structs, f, ids, fields, g, h);
  }

  lemma BytesSound(p: Protocol, d: Definition, f: FieldDefinition, ids: map<Name, nat>, fields: seq<Field>, g: Field)
    requires (f.kind.Raw? || f.kind.Text?) && IdsMatch(ids, fields) && CompileBytes(f, ids, fields) == Ok(g)
    ensures UngatedSound(p, d, f, fields + [g], |fields|) && References(g) == {} && !g.Gated() && g.reserved == f.reserved
    ensures f.reserved ==> f.condition.None? && f.presence.None?
    ensures FieldFixed(p.structs, g) <==> f.sizeFrom.None?
  {
    assert FieldWellFormed(p, Draft(fields + [g]), |fields|);
  }

  lemma ScalarSound(p: Protocol, d: Definition, f: FieldDefinition, fields: seq<Field>, g: Field)
    requires g.Scalar() && g.width > 0 && g == Plain(f, |fields|).(kind := g.kind, width := g.width, order := g.order)
    requires SameRepresentation(d, f, g)
    ensures UngatedSound(p, d, f, fields + [g], |fields|) && References(g) == {} && !g.Gated() && g.reserved == f.reserved
    ensures FieldFixed(p.structs, g)
  {
    if Sane(f) {
      assert FieldWellFormed(p, Draft(fields + [g]), |fields|);
    }
  }

  lemma NestedSound(p: Protocol, d: Definition, f: FieldDefinition, fields: seq<Field>, g: Field, id: nat)
    requires f.kind.Nested? && f.typeName.Some? && EnumId(d, f.typeName.value).None? && StructId(d, f.typeName.value) == Some(id)
    requires f.expected.None? && id < |p.structs|
    requires g == Plain(f, |fields|).(structId := id, fixedSize := p.structs[id].minimumSize)
    ensures UngatedSound(p, d, f, fields + [g], |fields|) && References(g) == {id} && !g.Gated() && g.reserved == f.reserved
    ensures FieldFixed(p.structs, g) <==> p.structs[id].hasFixedSize
  {
    if Sane(f) {
      assert FieldWellFormed(p, Draft(fields + [g]), |fields|);
    }
  }

  lemma CollectionSound(p: Protocol, d: Definition, f: FieldDefinition, fields: seq<Field>, g: Field, id: nat, source: nat)
    requires f.kind.Collection? && f.typeName.Some? && StructId(d, f.typeName.value) == Some(id)
    requires f.expected.None? && id < |p.structs| && p.structs[id].minimumSize > 0
    requires f.countFrom.Some? ==> Names(fields, source, f.countFrom.value) && fields[source].Counter()
    requires g == Plain(f, |fields|).(structId := id, fixedCount := f.fixedCount, dynamicCount := f.countFrom.Some?, countFrom := source,
                                      fixedSize := if f.countFrom.Some? then 0 else f.fixedCount * p.structs[id].minimumSize)
    ensures UngatedSound(p, d, f, fields + [g], |fields|) && References(g) == {id} && !g.Gated() && g.reserved == f.reserved
    ensures FieldFixed(p.structs, g) <==> f.countFrom.None? && p.structs[id].hasFixedSize
  {
    if Sane(f) {
      assert FieldWellFormed(p, Draft(fields + [g]), |fields|);
    }
  }

  // ----- Variant cases -----

  /** Structs finished before are still as they were. */
  ghost predicate SameDone(was: seq<Layout>, now: seq<Layout>, done: seq<nat>) {
    |was| == |now| && forall id | id in done && id < |was| :: now[id] == was[id]
  }

  predicate SortedByTag(cases: seq<VariantCase>) {
    forall i, j | 0 <= i < j < |cases| :: cases[i].tag <= cases[j].tag
  }

  /** Puts a case in front of the first one with a larger tag. */
  function InsertByTag(cases: seq<VariantCase>, c: VariantCase): (r: seq<VariantCase>)
    ensures multiset(r) == multiset(cases) + multiset{c}
  {
    if cases == [] then [c]
    else if c.tag < cases[0].tag then [c] + cases
    else
      assert cases == [cases[0]] + cases[1..];
      [cases[0]] + InsertByTag(cases[1..], c)
  }

  lemma {:induction false} InsertKeepsSorted(cases: seq<VariantCase>, c: VariantCase)
    requires SortedByTag(cases)
    ensures SortedByTag(InsertByTag(cases, c))
  {
    if cases != [] && c.tag >= cases[0].tag {
      InsertKeepsSorted(cases[1..], c);
      var rest := InsertByTag(cases[1..], c);
      forall k | 0 <= k < |rest|
        ensures cases[0].tag <= rest[k].tag
      {
        assert rest[k] in multiset(rest);
        assert rest[k] == c || rest[k] in multiset(cases[1..]);
        if rest[k] != c {
          var m :| 0 <= m < |cases[1..]| && cases[1..][m] == rest[k];
          assert cases[m + 1] == rest[k];
        }
      }
    }
  }

  /** The cases in the order of their tags. */
  function SortByTag(cases: seq<VariantCase>): (r: seq<VariantCase>)
    ensures multiset(r) == multiset(cases)
  {
    if cases == [] then []
    else
      assert cases == cases[..|cases| - 1] + [cases[|cases| - 1]];
      InsertByTag(SortByTag(cases[..|cases| - 1]), cases[|cases| - 1])
  }

  lemma {:induction false} SortSorts(cases: seq<VariantCase>)
    ensures SortedByTag(SortByTag(cases))
  {
    if cases != [] {
      SortSorts(cases[..|cases| - 1]);
      InsertKeepsSorted(SortByTag(cases[..|cases| - 1]), cases[|cases| - 1]);
    }
  }

  lemma SameCases(cases: seq<VariantCase>, c: VariantCase)
    ensures c in SortByTag(cases) <==> c in cases
  {
    assert c in SortByTag(cases) <==> c in multiset(SortByTag(cases));
    assert c in cases <==> c in multiset(cases);
  }

  /** The cases compiled so far, the smallest minimum among them and whether all have the first's fixed size. */
  ghost predicate CasesSound(p: Protocol, d: Definition, defs: seq<CaseDefinition>, cases: seq<VariantCase>, smallest: nat, allFixed: bool)
  {
    && |cases| == |defs|
    && (forall k | 0 <= k < |cases| :: CaseSound(p, d, defs[k], cases[k]) && smallest <= p.structs[cases[k].structId].minimumSize)
    && (cases != [] ==> exists k :: 0 <= k < |cases| && HasMinimum(p, cases[k], smallest))
    && (allFixed <==> forall k | 0 <= k < |cases| :: SameFixed(p, cases[0], cases[k]))
  }

  datatype CaseSummary = CaseSummary(cases: seq<VariantCase>, smallest: nat, firstSize: nat, allFixed: bool)

  function AddToSummary(a: CaseSummary, c: VariantCase, layout: Layout): CaseSummary {
    var first := a.cases == [];
    var firstSize := if first then layout.minimumSize else a.firstSize;
    CaseSummary(a.cases + [c],
                if first || layout.minimumSize < a.smallest then layout.minimumSize else a.smallest,
                firstSize,
                a.allFixed && layout.hasFixedSize && layout.minimumSize == firstSize)
  }

  ghost predicate SummarySound(p: Protocol, d: Definition, defs: seq<CaseDefinition>, a: CaseSummary) {
    && CasesSound(p, d, defs, a.cases, a.smallest, a.allFixed)
    && (a.cases != [] ==> HasMinimum(p, a.cases[0], a.firstSize))
  }

  ghost predicate CasesIn(cases: seq<VariantCase>, ids: seq<nat>) {
    forall c | c in cases :: c.structId in ids
  }

  predicate CaseSound(p: Protocol, d: Definition, def: CaseDefinition, c: VariantCase) {
    c.tag == def.tag && StructId(d, def.typeName) == Some(c.structId) && c.structId < |p.structs|
  }

  predicate HasMinimum(p: Protocol, c: VariantCase, size: nat) {
    c.structId < |p.structs| && p.structs[c.structId].minimumSize == size
  }

  predicate SameFixed(p: Protocol, first: VariantCase, c: VariantCase) {
    && c.structId < |p.structs| && p.structs[c.structId].hasFixedSize
    && first.structId < |p.structs| && p.structs[c.structId].minimumSize == p.structs[first.structId].minimumSize
  }

  lemma VariantSound(p: Protocol, d: Definition, f: FieldDefinition, fields: seq<Field>, g: Field,
                     cases: seq<VariantCase>, smallest: nat, allFixed: bool, tagFrom: nat)
    requires f.kind.Variant? && f.expected.None? && f.cases != [] && CasesSound(p, d, f.cases, cases, smallest, allFixed)
    requires f.tagFrom.Some? && Names(fields, tagFrom, f.tagFrom.value) && fields[tagFrom].Counter()
    requires g == Plain(f, |fields|).(tagFrom := tagFrom, cases := SortByTag(cases), fixedSize := smallest)
    ensures UngatedSound(p, d, f, fields + [g], |fields|) && !g.Gated() && g.reserved == f.reserved
    ensures References(g) == set c | c in cases :: c.structId
    ensures FieldFixed(p.structs, g) <==> allFixed
  {
    VariantCases(p, d, f.cases, cases, smallest, allFixed, g);
    VariantFixed(p, d, f.cases, cases, smallest, allFixed, g);
    VariantNames(p, d, f, cases, smallest, allFixed, g);
    VariantWellFormed(p, f, fields, g);
    VariantReferences(p, cases, g);
    CasesResolved(p, d, f.cases, cases, smallest, allFixed);
    SoundFrom(p, d, f, fields, g);
  }

  lemma CasesResolved(p: Protocol, d: Definition, defs: seq<CaseDefinition>, cases: seq<VariantCase>, smallest: nat, allFixed: bool)
    requires CasesSound(p, d, defs, cases, smallest, allFixed)
    ensures cases == ResolvedCases(d, defs)
  {
    forall k | 0 <= k < |cases|
      ensures cases[k] == ResolvedCases(d, defs)[k]
    {
      assert CaseSound(p, d, defs[k], cases[k]);
    }
  }

  lemma VariantReferences(p: Protocol, cases: seq<VariantCase>, g: Field)
    requires g.kind.Variant? && (forall c :: c in g.cases <==> c in cases) && forall c | c in cases :: c.structId < |p.structs|
    ensures References(g) == set c | c in cases :: c.structId
    ensures forall id | id in References(g) :: id < |p.structs|
  {
  }

  lemma SoundFrom(p: Protocol, d: Definition, f: FieldDefinition, fields: seq<Field>, g: Field)
    requires g.name == f.name && Carries(d, f, fields + [g], g) && (Sane(f) ==> FieldWellFormed(p, Draft(fields + [g]), |fields|))
    requires forall name | name in TypeNames(d, f) :: StructId(d, name).Some? && StructId(d, name).value in References(g)
    requires forall id | id in References(g) :: id < |p.structs|
    ensures UngatedSound(p, d, f, fields + [g], |fields|)
  {
  }

  lemma VariantWellFormed(p: Protocol, f: FieldDefinition, fields: seq<Field>, g: Field)
    requires f.kind.Variant? && f.expected.None? && g == Plain(f, |fields|).(tagFrom := g.tagFrom, cases := g.cases, fixedSize := g.fixedSize)
    requires g.tagFrom < |fields| && fields[g.tagFrom].Counter()
    requires forall k | 0 <= k < |g.cases| :: CaseWellFormed(p, g, k)
    ensures Sane(f) ==> FieldWellFormed(p, Draft(fields + [g]), |fields|)
  {
    assert Draft(fields + [g]).fields[|fields|] == g && (fields + [g])[g.tagFrom] == fields[g.tagFrom];
  }

  lemma VariantCases(p: Protocol, d: Definition, defs: seq<CaseDefinition>, cases: seq<VariantCase>, smallest: nat, allFixed: bool, g: Field)
    requires CasesSound(p, d, defs, cases, smallest, allFixed) && g.cases == SortByTag(cases) && g.fixedSize == smallest
    ensures forall c :: c in g.cases <==> c in cases
    ensures forall k | 0 <= k < |g.cases| :: CaseWellFormed(p, g, k)
    ensures forall c | c in cases :: c.structId < |p.structs|
  {
    forall c
      ensures c in g.cases <==> c in cases
    {
      SameCases(cases, c);
    }
    forall j | 0 <= j < |cases|
      ensures cases[j].structId < |p.structs|
    {
      assert CaseSound(p, d, defs[j], cases[j]);
    }
    forall k | 0 <= k < |g.cases|
      ensures CaseWellFormed(p, g, k)
    {
      assert g.cases[k] in cases;
      var j :| 0 <= j < |cases| && cases[j] == g.cases[k];
      assert CaseSound(p, d, defs[j], cases[j]);
    }
  }

  lemma VariantNames(p: Protocol, d: Definition, f: FieldDefinition, cases: seq<VariantCase>, smallest: nat, allFixed: bool, g: Field)
    requires f.kind.Variant? && g.kind.Variant? && CasesSound(p, d, f.cases, cases, smallest, allFixed)
    requires forall c :: c in g.cases <==> c in cases
    ensures forall name | name in TypeNames(d, f) :: StructId(d, name).Some? && StructId(d, name).value in References(g)
  {
    forall name | name in TypeNames(d, f)
      ensures StructId(d, name).Some? && StructId(d, name).value in References(g)
    {
      var c :| c in f.cases && c.typeName == name;
      var j :| 0 <= j < |f.cases| && f.cases[j] == c;
      assert CaseSound(p, d, f.cases[j], cases[j]) && cases[j] in g.cases;
    }
  }

  lemma CasesAfter(d: Definition, p: Protocol, p': Protocol, done: seq<nat>, defs: seq<CaseDefinition>, cases: seq<VariantCase>,
                   smallest: nat, allFixed: bool)
    requires CasesSound(p, d, defs, cases, smallest, allFixed) && SameDone(p.structs, p'.structs, done)
    requires forall c | c in cases :: c.structId in done
    ensures CasesSound(p', d, defs, cases, smallest, allFixed)
  {
    forall k | 0 <= k < |cases|
      ensures CaseSound(p', d, defs[k], cases[k]) && smallest <= p'.structs[cases[k].structId].minimumSize
      ensures HasMinimum(p, cases[k], smallest) ==> HasMinimum(p', cases[k], smallest)
      ensures SameFixed(p, cases[0], cases[k]) <==> SameFixed(p', cases[0], cases[k])
    {
      assert CaseSound(p, d, defs[k], cases[k]) && CaseSound(p, d, defs[0], cases[0]) && cases[k] in cases && cases[0] in cases;
    }
  }

  lemma SummaryAfter(d: Definition, p: Protocol, p': Protocol, done: seq<nat>, defs: seq<CaseDefinition>, a: CaseSummary)
    requires SummarySound(p, d, defs, a) && SameDone(p.structs, p'.structs, done) && CasesIn(a.cases, done)
    ensures SummarySound(p', d, defs, a)
  {
    CasesAfter(d, p, p', done, defs, a.cases, a.smallest, a.allFixed);
    if a.cases != [] {
      assert a.cases[0] in a.cases;
    }
  }

  lemma AddCase(p: Protocol, d: Definition, defs: seq<CaseDefinition>, k: nat, cases: seq<VariantCase>, smallest: nat, allFixed: bool,
                c: VariantCase, smallest': nat, allFixed': bool)
    requires k < |defs| && CasesSound(p, d, defs[..k], cases, smallest, allFixed) && CaseSound(p, d, defs[k], c)
    requires var size := p.structs[c.structId].minimumSize;
             smallest' == if k == 0 || size < smallest then size else smallest
    requires k > 0 ==> cases[0].structId < |p.structs|
    requires allFixed' <==> allFixed && p.structs[c.structId].hasFixedSize
                            && (k == 0 || p.structs[c.structId].minimumSize == p.structs[cases[0].structId].minimumSize)
    ensures CasesSound(p, d, defs[..k + 1], cases + [c], smallest', allFixed')
  {
    var longer := cases + [c];
    forall j | 0 <= j < |longer|
      ensures CaseSound(p, d, defs[..k + 1][j], longer[j]) && smallest' <= p.structs[longer[j].structId].minimumSize
    {
      if j < k {
        assert CaseSound(p, d, defs[..k][j], cases[j]);
      }
    }
    if smallest' == p.structs[c.structId].minimumSize {
      assert HasMinimum(p, longer[k], smallest');
    } else {
      var j :| 0 <= j < |cases| && HasMinimum(p, cases[j], smallest);
      assert HasMinimum(p, longer[j], smallest');
    }
    assert forall j | 0 <= j < k :: SameFixed(p, longer[0], longer[j]) == SameFixed(p, cases[0], cases[j]);
    assert SameFixed(p, longer[0], longer[k]) <==>
           p.structs[c.structId].hasFixedSize && (k == 0 || p.structs[c.structId].minimumSize == p.structs[cases[0].structId].minimumSize);
  }

  /** The summary of the cases so far with one more. */
  lemma SummaryGrows(p: Protocol, d: Definition, defs: seq<CaseDefinition>, k: nat, a: CaseSummary, c: VariantCase)
    requires k < |defs| && SummarySound(p, d, defs[..k], a) && CaseSound(p, d, defs[k], c)
    ensures SummarySound(p, d, defs[..k + 1], AddToSummary(a, c, p.structs[c.structId]))
  {
    var b := AddToSummary(a, c, p.structs[c.structId]);
    AddCase(p, d, defs, k, a.cases, a.smallest, a.allFixed, c, b.smallest, b.allFixed);
  }

  lemma VariantFixed(p: Protocol, d: Definition, defs: seq<CaseDefinition>, cases: seq<VariantCase>, smallest: nat, allFixed: bool, g: Field)
    requires cases != [] && CasesSound(p, d, defs, cases, smallest, allFixed)
    requires g.fixedSize == smallest && forall c :: c in g.cases <==> c in cases
    ensures (forall k | 0 <= k < |g.cases| :: CaseFixed(p.structs, g, k)) <==> allFixed
  {
    var least :| 0 <= least < |cases| && HasMinimum(p, cases[least], smallest);
    if allFixed {
      assert SameFixed(p, cases[0], cases[least]);
      forall k | 0 <= k < |g.cases|
        ensures CaseFixed(p.structs, g, k)
      {
        assert g.cases[k] in cases;
        var j :| 0 <= j < |cases| && cases[j] == g.cases[k];
        assert SameFixed(p, cases[0], cases[j]);
      }
    } else if forall k | 0 <= k < |g.cases| :: CaseFixed(p.structs, g, k) {
      forall j | 0 <= j < |cases|
        ensures SameFixed(p, cases[0], cases[j])
      {
        assert cases[j] in g.cases && cases[0] in g.cases;
        var k :| 0 <= k < |g.cases| && g.cases[k] == cases[j];
        var z :| 0 <= z < |g.cases| && g.cases[z] == cases[0];
        assert CaseFixed(p.structs, g, k) && CaseFixed(p.structs, g, z);
      }
      assert false;
    }
  }

  // ----- A layout in the making -----

  ghost predicate PendingSound(fields: seq<Field>, pending: seq<PendingChecksum>) {
    && (forall k | 0 <= k < |pending| :: pending[k].fieldId < |fields| && fields[pending[k].fieldId].Counter())
    && (forall j, k | 0 <= j < k < |pending| :: pending[j].fieldId < pending[k].fieldId)
  }

  /** The anchor a definition names. */
  function ResolveAnchor(a: AnchorDefinition, own: nat, ids: map<Name, nat>): (r: Result<Anchor, CompileError>) {
    match a
    case AtFrameStart => Ok(Anchor(FrameStart, 0))
    case AtFrameEnd => Ok(Anchor(FrameEnd, 0))
    case BeforeOwn => Ok(Anchor(BeforeSelf, own))
    case AfterOwn => Ok(Anchor(AfterSelf, own))
    case StartOf(name) => if name in ids then Ok(Anchor(FieldStart, ids[name])) else Err(BadAnchor)
    case EndOf(name) => if name in ids then Ok(Anchor(FieldEnd, ids[name])) else Err(BadAnchor)
    case OtherAnchor => Err(BadAnchor)
  }

  method ResolveChecksums(l: Layout, pending: seq<PendingChecksum>, ids: map<Name, nat>) returns (r: Result<seq<Checksum>, CompileError>)
    requires IdsMatch(ids, l.fields) && PendingSound(l.fields, pending)
    ensures r.Ok? ==> ChecksumsWellFormed(l.(checksums := r.value)) && AllCarried(l.fields, pending, r.value)
    ensures r.Err? ==> r.error == BadAnchor
  {
    var checksums: seq<Checksum> := [];
    for k := 0 to |pending|
      invariant |checksums| == k && ChecksumsWellFormed(l.(checksums := checksums))
      invariant forall j | 0 <= j < k :: ChecksumCarried(l.fields, pending[j], checksums[j])
      invariant forall j | 0 <= j < k :: checksums[j].fieldId == pending[j].fieldId
    {
      var own := pending[k].fieldId;
      var from := ResolveAnchor(pending[k].definition.from, own, ids);
      if from.Err? {
        return Err(from.error);
      }
      var to := ResolveAnchor(pending[k].definition.to, own, ids);
      if to.Err? {
        return Err(to.error);
      }
      ghost var before := l.(checksums := checksums);
      checksums := checksums + [Checksum(own, pending[k].definition.algorithm, from.value, to.value)];
      ghost var after := l.(checksums := checksums);
      assert forall j | 0 <= j < k :: ChecksumWellFormed(before, j) == ChecksumWellFormed(after, j);
      assert ChecksumWellFormed(after, k);
      assert forall i, j | 0 <= i < j < k :: ChecksumsDiffer(before, i, j) == ChecksumsDiffer(after, i, j);
    }
    return Ok(checksums);
  }

  /** A layout in the making. */
  datatype Progress = Progress(
    ids: map<Name, nat>,
    fields: seq<Field>,
    minimumSize: nat,
    fixed: bool,
    prefix: seq<byte>,
    collecting: bool,
    pending: seq<PendingChecksum>)

  /** What the loop over the fields knows, apart from the structs. */
  ghost predicate ProgressSound(structs: seq<Layout>, g: Progress) {
    && IdsMatch(g.ids, g.fields)
    && g.minimumSize == MinimumPrefix(g.fields, |g.fields|)
    && (g.fixed <==> AllFixed(structs, g.fields))
    && g.prefix == LeadingBytes(g.fields)
    && (g.collecting <==> AllConstant(g.fields))
    && PendingSound(g.fields, g.pending)
  }

  /** The layout so far with one more field. */
  function AddField(g: Progress, h: Field, fixed: bool, checksum: Option<ChecksumDefinition>): Progress {
    var constant := g.collecting && Constant(h);
    Progress(
      g.ids[h.name := |g.fields|],
      g.fields + [h],
      if h.Gated() then g.minimumSize else AlignUp(g.minimumSize, h.alignment) + h.MinimumContribution(),
      g.fixed && fixed,
      if constant then g.prefix + ConstantBytes(h) else g.prefix,
      constant,
      if checksum.Some? then g.pending + [PendingChecksum(|g.fields|, checksum.value)] else g.pending)
  }

  lemma ProgressGrows(structs: seq<Layout>, g: Progress, h: Field, fixed: bool, checksum: Option<ChecksumDefinition>)
    requires ProgressSound(structs, g) && h.id == |g.fields| && h.name !in g.ids
    requires fixed <==> FieldFixed(structs, h)
    requires checksum.Some? ==> h.Counter()
    ensures ProgressSound(structs, AddField(g, h, fixed, checksum))
  {
    IdsGrow(g.ids, g.fields, h);
    MinimumGrows(g.fields, h);
    LeadingGrows(g.fields, h);
    FixedGrows(structs, g.fields, h);
    ConstantGrows(g.fields, h);
    PendingGrows(g.fields, g.pending, h, checksum);
  }

  lemma FixedGrows(structs: seq<Layout>, fields: seq<Field>, h: Field)
    ensures AllFixed(structs, fields + [h]) <==> AllFixed(structs, fields) && FieldFixed(structs, h)
  {
    var longer := fields + [h];
    assert longer[|fields|] == h && forall k | 0 <= k < |fields| :: longer[k] == fields[k];
  }

  lemma ConstantGrows(fields: seq<Field>, h: Field)
    ensures AllConstant(fields + [h]) <==> AllConstant(fields) && Constant(h)
  {
    var longer := fields + [h];
    assert longer[|fields|] == h && forall k | 0 <= k < |fields| :: longer[k] == fields[k];
  }

  lemma PendingGrows(fields: seq<Field>, pending: seq<PendingChecksum>, h: Field, checksum: Option<ChecksumDefinition>)
    requires PendingSound(fields, pending) && (checksum.Some? ==> h.Counter())
    ensures PendingSound(fields + [h], if checksum.Some? then pending + [PendingChecksum(|fields|, checksum.value)] else pending)
  {
  }
}
