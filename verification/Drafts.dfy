/** What a draft drawn from sample frames says, and that the borrowed-view decoder accepts those frames
    under it once it is compiled. */
module Drafts {
  import opened Prelude
  import opened Bytes
  import opened Metadata
  import opened SchemaLayouts
  import opened BorrowedDecoder
  import Codec

  type Frames = seq<seq<byte>>

  // ----- What the samples have in common -----

  /** All frames reach to `position` and hold the same byte there. */
  predicate AgreeAt(frames: Frames, position: nat) {
    frames != [] && forall f | f in frames :: position < |f| && position < |frames[0]| && f[position] == frames[0][position]
  }

  /** All frames hold printable ASCII text between the two positions. */
  predicate IsText(frames: Frames, start: nat, end: nat) {
    forall f | f in frames :: end <= |f| && forall k | start <= k < end :: 0x20 <= f[k] <= 0x7E
  }

  predicate NowhereAgree(frames: Frames, start: nat, end: nat) {
    forall k | start <= k < end :: !AgreeAt(frames, k)
  }

  // ----- Length fields -----

  datatype LengthField = LengthField(offset: nat, width: nat, order: ByteOrder, trailing: nat)

  /** Read as a number, the bytes at the offset count what follows them up to the trailing bytes. */
  predicate ExplainsFrame(f: seq<byte>, c: LengthField) {
    && c.offset + c.width + c.trailing <= |f|
    && FromBytes(f[c.offset..c.offset + c.width], c.order) == |f| - c.offset - c.width - c.trailing
  }

  predicate Explains(frames: Frames, c: LengthField) {
    forall f | f in frames :: ExplainsFrame(f, c)
  }

  // ----- Draft fields -----

  /** A field definition with nothing but a name and a kind. */
  function Blank(name: string, kind: Kind): FieldDefinition {
    FieldDefinition(Name(name), kind, 0, LittleEndian, Ascii, 0, None, None, 1, false, 0, 0, None, None, [], None, None, None, None)
  }

  function ByteField(name: string, expected: Option<nat>): FieldDefinition {
    Blank(name, Unsigned).(width := 1, expected := expected)
  }

  function FixedField(name: string, kind: Kind, size: nat): FieldDefinition {
    Blank(name, kind).(fixedSize := size)
  }

  const LENGTH_NAME: string := "length"
  const PAYLOAD_NAME: string := "payload"
  const TRAILER_NAME: string := "trailer"

  /** The length, the payload it counts, and the trailing bytes if there are any. */
  function CountedFields(c: LengthField): seq<FieldDefinition> {
    [LengthDefinition(c), PayloadDefinition()] + if c.trailing > 0 then [FixedField(TRAILER_NAME, Raw, c.trailing)] else []
  }

  function SizeOfDraft(f: FieldDefinition): nat {
    if f.kind.Unsigned? then f.width else f.fixedSize
  }

  /** The bytes the fields cover. */
  function Extent(defs: seq<FieldDefinition>): nat {
    if defs == [] then 0 else Extent(defs[..|defs| - 1]) + SizeOfDraft(defs[|defs| - 1])
  }

  /** The definition has no type, gate, checksum or other extra. */
  predicate Simple(f: FieldDefinition) {
    && (f.kind.Unsigned? || f.kind.Raw? || f.kind.Text?) && f.encoding.Ascii? && f.alignment == 1 && !f.reserved
    && f.condition.None? && f.presence.None? && f.checksum.None?
  }

  /** The definition at `position` says what the frames show there: a constant where they agree, otherwise
      a field over bytes in which they nowhere agree, text if all of them hold text. */
  predicate Shows(frames: Frames, f: FieldDefinition, position: nat) {
    if f.expected.Some? then
      AgreeAt(frames, position) && f == ByteField(f.name.text, Some(frames[0][position]))
    else
      var size := SizeOfDraft(f);
      && size >= 1 && NowhereAgree(frames, position, position + size)
      && if size == 1 then f == ByteField(f.name.text, None)
         else if IsText(frames, position, position + size) then f == FixedField(f.name.text, Text, size)
         else f == FixedField(f.name.text, Raw, size)
  }

  /** The definitions cover a region from its start, each showing what the frames hold there. */
  predicate Draws(frames: Frames, defs: seq<FieldDefinition>) {
    defs == [] || (Draws(frames, defs[..|defs| - 1]) && Shows(frames, defs[|defs| - 1], Extent(defs[..|defs| - 1])))
  }

  lemma DrawsMore(frames: Frames, defs: seq<FieldDefinition>, f: FieldDefinition)
    requires Draws(frames, defs) && Shows(frames, f, Extent(defs))
    ensures Draws(frames, defs + [f]) && Extent(defs + [f]) == Extent(defs) + SizeOfDraft(f)
  {
    assert (defs + [f])[..|defs|] == defs;
  }

  /** A draft message: fields over the fixed region, then what a length field explains, if one was found. */
  datatype Draft = Draft(region: seq<FieldDefinition>, length: Option<LengthField>, definition: LayoutDefinition)

  predicate FitsFrames(frames: Frames, m: Draft) {
    match m.length
    case Some(c) =>
      && Explains(frames, c) && 1 <= c.width <= 8 && Extent(m.region) == c.offset
      && m.definition.fields == m.region + CountedFields(c) && !m.definition.allowTrailing
    case None =>
      && m.definition.fields == m.region
      && (forall f | f in frames :: Extent(m.region) <= |f|)
      && (m.definition.allowTrailing || forall f | f in frames :: Extent(m.region) == |f|)
  }

  predicate IsDraft(frames: Frames, m: Draft) {
    Draws(frames, m.region) && FitsFrames(frames, m)
  }

  // ----- Compiled drafts -----

  /** A compiled field without gates or padding: its representation is the definition's. */
  predicate PlainlyCompiled(f: FieldDefinition, g: Field) {
    && Simple(f) && g.kind == f.kind && g.width == f.width && g.order == f.order && g.encoding == f.encoding
    && g.fixedSize == (if f.kind.Unsigned? then g.fixedSize else f.fixedSize)
    && g.dynamicSize == f.sizeFrom.Some? && !g.Gated() && g.alignment == 1 && !g.reserved
    && g.hasExpected == f.expected.Some? && (f.expected.Some? ==> g.expected == f.expected.value)
  }

  ghost predicate Setting(p: Protocol, d: Definition, def: LayoutDefinition, l: Layout) {
    LayoutSound(p, d, def, l) && Compiled(p, l)
  }

  lemma CompiledPlainly(p: Protocol, d: Definition, def: LayoutDefinition, l: Layout, k: nat)
    requires Setting(p, d, def, l) && k < |def.fields| && Simple(def.fields[k])
    requires def.fields[k].kind.Unsigned? ==> def.fields[k].sizeFrom.None?
    ensures k < |l.fields| && PlainlyCompiled(def.fields[k], l.fields[k])
  {
    assert FieldSound(p, d, def.fields[k], l.fields, k);
    assert FieldWellFormed(p, l, k);
  }

  /** A plain field of fixed size takes its place. */
  lemma PlainAccepted(p: Protocol, l: Layout, frame: seq<byte>, i: nat, slots: seq<Slot>, offset: nat, f: FieldDefinition)
    requires Compiled(p, l) && i < |l.fields| && PlainlyCompiled(f, l.fields[i]) && f.sizeFrom.None?
    requires offset + SizeOfDraft(f) <= |frame|
    requires FieldFault(l.fields[i], frame[offset..offset + SizeOfDraft(f)]).None?
    ensures AssignField(p, l, frame, i, slots, offset) ==
            Accepted(slots + [Slot(true, offset, SizeOfDraft(f), CachedRaw(l.fields[i], frame[offset..offset + SizeOfDraft(f)]))], offset + SizeOfDraft(f))
  {
    assert FieldSize(p, l, frame, i, slots, offset) == Size(SizeOfDraft(f));
  }

  /** What a definition shows of the samples is true of each. */
  lemma ShownIsThere(frames: Frames, frame: seq<byte>, f: FieldDefinition, g: Field, at: nat)
    requires frame in frames && Shows(frames, f, at) && PlainlyCompiled(f, g) && at + SizeOfDraft(f) <= |frame|
    ensures FieldFault(g, frame[at..at + SizeOfDraft(f)]).None?
  {
    var bytes := frame[at..at + SizeOfDraft(f)];
    if f.expected.Some? {
      assert bytes == [frame[at]] && frame[at] == frames[0][at];
      OneByte(frame[at], g.order);
    } else if f.kind.Text? {
      TextIsAscii(frames, frame, at, at + SizeOfDraft(f));
    }
  }

  lemma OneByte(b: byte, order: ByteOrder)
    ensures FromBytes([b], order) == b
  {
    assert LittleValue([b]) == b + 256 * LittleValue([]) by {
      assert [b][1..] == [];
    }
    assert BigValue([b]) == b + 256 * BigValue([]) by {
      assert [b][..0] == [];
    }
  }

  lemma TextIsAscii(frames: Frames, frame: seq<byte>, start: nat, end: nat)
    requires frame in frames && IsText(frames, start, end) && start <= end
    ensures end <= |frame| && Codec.DecodeText(Ascii, frame[start..end]).Some?
  {
    var bytes := frame[start..end];
    assert forall i | 0 <= i < |bytes| :: bytes[i] < 128 by {
      forall i | 0 <= i < |bytes|
        ensures bytes[i] < 128
      {
        assert bytes[i] == frame[start + i];
      }
    }
  }

  lemma ShowsIsSimple(frames: Frames, f: FieldDefinition, at: nat)
    requires Shows(frames, f, at)
    ensures Simple(f) && f.sizeFrom.None? && SizeOfDraft(f) >= 1
  {
  }

  lemma {:induction false} DrawnParts(frames: Frames, region: seq<FieldDefinition>, n: nat)
    requires Draws(frames, region) && n <= |region|
    ensures Draws(frames, region[..n]) && Extent(region[..n]) <= Extent(region)
    decreases |region| - n
  {
    if n == |region| {
      assert region[..n] == region;
    } else {
      DrawnParts(frames, region, n + 1);
      assert region[..n + 1][..n] == region[..n];
    }
  }

  lemma DrawnField(frames: Frames, region: seq<FieldDefinition>, n: nat)
    requires Draws(frames, region) && n < |region|
    ensures Draws(frames, region[..n]) && Shows(frames, region[n], Extent(region[..n]))
    ensures Extent(region[..n + 1]) == Extent(region[..n]) + SizeOfDraft(region[n])
  {
    DrawnParts(frames, region, n + 1);
    assert region[..n + 1][..n] == region[..n];
  }

  /** The fields of the region are compiled plainly. */
  predicate RegionCompiled(region: seq<FieldDefinition>, fields: seq<Field>) {
    |region| <= |fields| && forall k | 0 <= k < |region| :: PlainlyCompiled(region[k], fields[k])
  }

  lemma RegionIsCompiled(p: Protocol, d: Definition, def: LayoutDefinition, l: Layout, frames: Frames, region: seq<FieldDefinition>)
    requires Setting(p, d, def, l) && region <= def.fields && Draws(frames, region)
    ensures RegionCompiled(region, l.fields)
  {
    forall k | 0 <= k < |region|
      ensures k < |l.fields| && PlainlyCompiled(region[k], l.fields[k])
    {
      assert region[k] == def.fields[k];
      DrawnField(frames, region, k);
      ShowsIsSimple(frames, region[k], Extent(region[..k]));
      CompiledPlainly(p, d, def, l, k);
    }
  }

  /** The first `i` fields are accepted and end at `at`. */
  ghost predicate ReadsUpTo(p: Protocol, l: Layout, frame: seq<byte>, i: nat, at: nat)
    requires Compiled(p, l) && i <= |l.fields|
  {
    AssignFields(p, l, frame, i).Accepted? && AssignFields(p, l, frame, i).consumed == at
  }

  /** The next field of the region is accepted behind the ones before it. */
  lemma NextAccepted(p: Protocol, l: Layout, frames: Frames, frame: seq<byte>, region: seq<FieldDefinition>, n: nat, slots: seq<Slot>)
    requires Compiled(p, l) && RegionCompiled(region, l.fields) && n < |region|
    requires Draws(frames, region) && frame in frames && Extent(region) <= |frame|
    ensures var r := AssignField(p, l, frame, n, slots, Extent(region[..n]));
            r.Accepted? && r.consumed == Extent(region[..n + 1])
  {
    DrawnField(frames, region, n);
    DrawnParts(frames, region, n + 1);
    var f, at := region[n], Extent(region[..n]);
    ShowsIsSimple(frames, f, at);
    ShownIsThere(frames, frame, f, l.fields[n], at);
    PlainAccepted(p, l, frame, n, slots, at, f);
  }

  /** The fields of the region are accepted one behind the other. */
  lemma {:induction false} RegionAccepted(p: Protocol, l: Layout, frames: Frames, frame: seq<byte>, region: seq<FieldDefinition>, n: nat)
    requires Compiled(p, l) && RegionCompiled(region, l.fields) && n <= |region|
    requires Draws(frames, region) && frame in frames && Extent(region) <= |frame|
    ensures ReadsUpTo(p, l, frame, n, Extent(region[..n]))
    decreases n
  {
    if n > 0 {
      RegionAccepted(p, l, frames, frame, region, n - 1);
      NextAccepted(p, l, frames, frame, region, n - 1, AssignFields(p, l, frame, n - 1).slots);
    }
  }

  /** The region counts in full towards the minimum size. */
  lemma {:induction false} RegionMinimum(fields: seq<Field>, frames: Frames, region: seq<FieldDefinition>, n: nat)
    requires RegionCompiled(region, fields) && n <= |region| && Draws(frames, region)
    ensures MinimumPrefix(fields, n) == Extent(region[..n])
    decreases n
  {
    if n > 0 {
      RegionMinimum(fields, frames, region, n - 1);
      DrawnField(frames, region, n - 1);
      ShowsIsSimple(frames, region[n - 1], Extent(region[..n - 1]));
      assert PlainlyCompiled(region[n - 1], fields[n - 1]);
    }
  }

  lemma {:induction false} NoChecksums(defs: seq<FieldDefinition>, n: nat)
    requires n <= |defs| && forall k | 0 <= k < n :: defs[k].checksum.None?
    ensures DefinedChecksums(defs, n) == []
  {
    if n > 0 {
      NoChecksums(defs, n - 1);
    }
  }

  // ----- The fields a length field explains -----

  function LengthDefinition(c: LengthField): FieldDefinition {
    Blank(LENGTH_NAME, Unsigned).(width := c.width, order := c.order)
  }

  function PayloadDefinition(): FieldDefinition {
    Blank(PAYLOAD_NAME, Raw).(sizeFrom := Some(Name(LENGTH_NAME)))
  }

  /** The region and what follows it are compiled plainly, and the payload's size comes from the length field. */
  predicate CountedCompiled(region: seq<FieldDefinition>, c: LengthField, fields: seq<Field>) {
    var n := |region|;
    && RegionCompiled(region, fields) && |fields| == n + (if c.trailing > 0 then 3 else 2)
    && PlainlyCompiled(LengthDefinition(c), fields[n])
    && PlainlyCompiled(PayloadDefinition(), fields[n + 1]) && fields[n + 1].sizeFrom == n
    && (c.trailing > 0 ==> PlainlyCompiled(FixedField(TRAILER_NAME, Raw, c.trailing), fields[n + 2]))
  }

  lemma CountedDefinitions(region: seq<FieldDefinition>, c: LengthField, fields: seq<FieldDefinition>)
    requires fields == region + CountedFields(c)
    ensures |fields| == |region| + (if c.trailing > 0 then 3 else 2) && region <= fields
    ensures fields[|region|] == LengthDefinition(c) && fields[|region| + 1] == PayloadDefinition()
    ensures c.trailing > 0 ==> fields[|region| + 2] == FixedField(TRAILER_NAME, Raw, c.trailing)
  {
  }

  lemma DistinctNames(fields: seq<Field>, i: nat, j: nat)
    requires NamesDistinct(fields) && i < |fields| && j < |fields| && i != j
    ensures fields[i].name != fields[j].name
  {
    assert NamesDiffer(fields, if i < j then i else j, if i < j then j else i);
  }

  /** A size taken from the field called like field `n` is taken from field `n`. */
  lemma SizeSource(p: Protocol, d: Definition, def: LayoutDefinition, l: Layout, k: nat, n: nat)
    requires Setting(p, d, def, l) && k < |def.fields| && n < |def.fields|
    requires def.fields[k].kind.Raw? && def.fields[k].sizeFrom == Some(def.fields[n].name)
    ensures k < |l.fields| && l.fields[k].sizeFrom == n
  {
    assert FieldSound(p, d, def.fields[n], l.fields, n) && FieldSound(p, d, def.fields[k], l.fields, k);
    var source := l.fields[k].sizeFrom;
    assert Names(l.fields, source, def.fields[n].name);
    if source != n {
      DistinctNames(l.fields, source, n);
    }
  }

  lemma CountedIsCompiled(p: Protocol, d: Definition, def: LayoutDefinition, l: Layout, frames: Frames,
                          region: seq<FieldDefinition>, c: LengthField)
    requires Setting(p, d, def, l) && Draws(frames, region) && def.fields == region + CountedFields(c)
    ensures CountedCompiled(region, c, l.fields)
  {
    var n := |region|;
    CountedDefinitions(region, c, def.fields);
    RegionIsCompiled(p, d, def, l, frames, region);
    CompiledPlainly(p, d, def, l, n);
    CompiledPlainly(p, d, def, l, n + 1);
    SizeSource(p, d, def, l, n + 1, n);
    if c.trailing > 0 {
      CompiledPlainly(p, d, def, l, n + 2);
    }
  }

  /** The number the length field holds in a frame. */
  function CountIn(frame: seq<byte>, c: LengthField): nat
    requires ExplainsFrame(frame, c)
  {
    |frame| - c.offset - c.width - c.trailing
  }

  /** The length field holds the number. */
  lemma CountIsRead(frame: seq<byte>, c: LengthField, g: Field)
    requires ExplainsFrame(frame, c) && 1 <= c.width <= 8 && PlainlyCompiled(LengthDefinition(c), g)
    ensures CachedRaw(g, frame[c.offset..c.offset + c.width]) == Some(CountIn(frame, c)) && g.Counter()
    ensures FieldFault(g, frame[c.offset..c.offset + c.width]).None?
  {
  }

  lemma LengthAccepted(p: Protocol, l: Layout, frame: seq<byte>, n: nat, slots: seq<Slot>, c: LengthField)
    requires Compiled(p, l) && n < |l.fields| && |slots| == n
    requires ExplainsFrame(frame, c) && 1 <= c.width <= 8 && PlainlyCompiled(LengthDefinition(c), l.fields[n])
    ensures var r := AssignField(p, l, frame, n, slots, c.offset);
            && r.Accepted? && r.consumed == c.offset + c.width && |r.slots| == n + 1
            && RawUnsigned(l, r.slots, n) == Some(CountIn(frame, c))
  {
    CountIsRead(frame, c, l.fields[n]);
    PlainAccepted(p, l, frame, n, slots, c.offset, LengthDefinition(c));
  }

  lemma PayloadAccepted(p: Protocol, l: Layout, frame: seq<byte>, n: nat, slots: seq<Slot>, c: LengthField)
    requires Compiled(p, l) && n + 1 < |l.fields| && ExplainsFrame(frame, c)
    requires RawUnsigned(l, slots, n) == Some(CountIn(frame, c))
    requires PlainlyCompiled(PayloadDefinition(), l.fields[n + 1]) && l.fields[n + 1].sizeFrom == n
    ensures var r := AssignField(p, l, frame, n + 1, slots, c.offset + c.width);
            r.Accepted? && r.consumed == |frame| - c.trailing
  {
    assert FieldSize(p, l, frame, n + 1, slots, c.offset + c.width) == Size(CountIn(frame, c));
  }

  /** One more field. */
  lemma AssignNext(p: Protocol, l: Layout, frame: seq<byte>, i: nat)
    requires Compiled(p, l) && i < |l.fields| && AssignFields(p, l, frame, i).Accepted?
    ensures var before := AssignFields(p, l, frame, i);
            |before.slots| == i && AssignFields(p, l, frame, i + 1) == AssignField(p, l, frame, i, before.slots, before.consumed)
  {
  }

  lemma CountedPayload(p: Protocol, l: Layout, frame: seq<byte>, n: nat, c: LengthField)
    requires Compiled(p, l) && n + 1 < |l.fields| && ExplainsFrame(frame, c) && 1 <= c.width <= 8
    requires PlainlyCompiled(LengthDefinition(c), l.fields[n])
    requires PlainlyCompiled(PayloadDefinition(), l.fields[n + 1]) && l.fields[n + 1].sizeFrom == n
    requires ReadsUpTo(p, l, frame, n, c.offset)
    ensures ReadsUpTo(p, l, frame, n + 2, |frame| - c.trailing)
  {
    AssignNext(p, l, frame, n);
    LengthAccepted(p, l, frame, n, AssignFields(p, l, frame, n).slots, c);
    AssignNext(p, l, frame, n + 1);
    PayloadAccepted(p, l, frame, n, AssignFields(p, l, frame, n + 1).slots, c);
  }

  lemma CountedTrailer(p: Protocol, l: Layout, frame: seq<byte>, n: nat, size: nat)
    requires Compiled(p, l) && n < |l.fields| && size <= |frame| && PlainlyCompiled(FixedField(TRAILER_NAME, Raw, size), l.fields[n])
    requires ReadsUpTo(p, l, frame, n, |frame| - size)
    ensures ReadsUpTo(p, l, frame, n + 1, |frame|)
  {
    AssignNext(p, l, frame, n);
    PlainAccepted(p, l, frame, n, AssignFields(p, l, frame, n).slots, |frame| - size, FixedField(TRAILER_NAME, Raw, size));
  }

  /** Behind the region a counted draft reads the rest of the frame. */
  lemma CountedAccepted(p: Protocol, l: Layout, frame: seq<byte>, region: seq<FieldDefinition>, c: LengthField)
    requires Compiled(p, l) && CountedCompiled(region, c, l.fields) && ExplainsFrame(frame, c) && 1 <= c.width <= 8
    requires ReadsUpTo(p, l, frame, |region|, c.offset)
    ensures ReadsUpTo(p, l, frame, |l.fields|, |frame|)
  {
    CountedPayload(p, l, frame, |region|, c);
    if c.trailing > 0 {
      CountedTrailer(p, l, frame, |region| + 2, c.trailing);
    }
  }

  lemma CountedMinimum(fields: seq<Field>, region: seq<FieldDefinition>, c: LengthField)
    requires CountedCompiled(region, c, fields) && MinimumPrefix(fields, |region|) == c.offset
    ensures MinimumPrefix(fields, |fields|) == c.offset + c.width + c.trailing
  {
    var n := |region|;
    assert MinimumPrefix(fields, n + 1) == c.offset + c.width;
    assert MinimumPrefix(fields, n + 2) == c.offset + c.width;
  }

  lemma DraftHasNoChecksums(p: Protocol, d: Definition, frames: Frames, m: Draft, l: Layout)
    requires IsDraft(frames, m) && LayoutSound(p, d, m.definition, l)
    ensures l.checksums == []
  {
    var fields := m.definition.fields;
    forall k | 0 <= k < |fields|
      ensures fields[k].checksum.None?
    {
      if k < |m.region| {
        DrawnField(frames, m.region, k);
        ShowsIsSimple(frames, m.region[k], Extent(m.region[..k]));
        assert fields[k] == m.region[k];
      }
    }
    NoChecksums(fields, |fields|);
  }

  /** A frame the fields of a message read to the end, or far enough, is accepted. */
  lemma ReadIsAccepted(p: Protocol, l: Layout, frame: seq<byte>, at: nat)
    requires Compiled(p, l) && l.checksums == [] && l.minimumSize <= |frame| && ReadsUpTo(p, l, frame, |l.fields|, at)
    requires l.allowTrailing || at == |frame|
    ensures Assign(p, l, frame, false).Accepted? && Assign(p, l, frame, false).consumed == at
  {
  }

  lemma DraftRegion(p: Protocol, d: Definition, frames: Frames, m: Draft, l: Layout, frame: seq<byte>)
    requires IsDraft(frames, m) && Setting(p, d, m.definition, l) && frame in frames
    ensures RegionCompiled(m.region, l.fields) && Extent(m.region) <= |frame|
  {
    RegionIsFront(frames, m);
    RegionFits(frames, m, frame);
    RegionIsCompiled(p, d, m.definition, l, frames, m.region);
  }

  lemma RegionIsFront(frames: Frames, m: Draft)
    requires FitsFrames(frames, m)
    ensures m.region <= m.definition.fields
  {
  }

  lemma RegionFits(frames: Frames, m: Draft, frame: seq<byte>)
    requires FitsFrames(frames, m) && frame in frames
    ensures Extent(m.region) <= |frame|
  {
    if m.length.Some? {
      assert ExplainsFrame(frame, m.length.value);
    }
  }

  /** The region of a draft is read in every sample. */
  lemma RegionRead(p: Protocol, d: Definition, frames: Frames, m: Draft, l: Layout, frame: seq<byte>)
    requires IsDraft(frames, m) && Setting(p, d, m.definition, l) && frame in frames
    ensures |m.region| <= |l.fields| && ReadsUpTo(p, l, frame, |m.region|, Extent(m.region))
    ensures MinimumPrefix(l.fields, |m.region|) == Extent(m.region)
  {
    DraftRegion(p, d, frames, m, l, frame);
    WholeRegion(p, l, frames, frame, m.region);
  }

  lemma WholeRegion(p: Protocol, l: Layout, frames: Frames, frame: seq<byte>, region: seq<FieldDefinition>)
    requires Compiled(p, l) && RegionCompiled(region, l.fields) && Draws(frames, region) && frame in frames && Extent(region) <= |frame|
    ensures ReadsUpTo(p, l, frame, |region|, Extent(region)) && MinimumPrefix(l.fields, |region|) == Extent(region)
  {
    assert region[..|region|] == region;
    RegionAccepted(p, l, frames, frame, region, |region|);
    RegionMinimum(l.fields, frames, region, |region|);
  }

  lemma CountedSample(p: Protocol, d: Definition, frames: Frames, m: Draft, l: Layout, frame: seq<byte>, c: LengthField)
    requires IsDraft(frames, m) && Setting(p, d, m.definition, l) && frame in frames && m.length == Some(c)
    ensures ReadsUpTo(p, l, frame, |l.fields|, |frame|) && l.minimumSize <= |frame|
  {
    RegionRead(p, d, frames, m, l, frame);
    CountedIsCompiled(p, d, m.definition, l, frames, m.region, c);
    CountedAccepted(p, l, frame, m.region, c);
    CountedMinimum(l.fields, m.region, c);
  }

  /** The decoder accepts every sample under its compiled draft, and reads all of it unless the draft allows
      bytes behind its fields. */
  lemma SamplesAreAccepted(p: Protocol, d: Definition, frames: Frames, m: Draft, l: Layout, frame: seq<byte>)
    requires IsDraft(frames, m) && Setting(p, d, m.definition, l) && l.isMessage && frame in frames
    ensures Assign(p, l, frame, false).Accepted?
    ensures !m.definition.allowTrailing ==> Assign(p, l, frame, false).consumed == |frame|
  {
    DraftHasNoChecksums(p, d, frames, m, l);
    if m.length.Some? {
      CountedSample(p, d, frames, m, l, frame, m.length.value);
      ReadIsAccepted(p, l, frame, |frame|);
    } else {
      RegionRead(p, d, frames, m, l, frame);
      ReadIsAccepted(p, l, frame, Extent(m.region));
    }
  }
}
