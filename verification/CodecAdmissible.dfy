/** Which mappings encode to frames that decode, and what they decode to. */
module CodecAdmissible {
  import opened Prelude
  import opened Bytes
  import opened Metadata
  import opened Codec
  import opened CodecFacts
  import opened CodecReencode

  // ----- What the frame says about a counter -----

  /** The number the encoder writes for a counter field, when it is not a checksum: the derived
      length, the constant, or the supplied value; none when the field is absent. */
  function WireNumber(l: Layout, m: Mapping, d: Derived, i: nat): (r: Option<int>)
    requires i < |l.fields|
  {
    var f := l.fields[i];
    if Present(l, i, m) != Some(true) then None
    else if i in d.lengths then Some(d.lengths[i])
    else if f.hasExpected then Some(f.expected)
    else if f.name in m then ToInt(m[f.name])
    else None
  }

  /** Field `source` will be read back as `n`. */
  ghost predicate Supplies(l: Layout, m: Mapping, d: Derived, source: nat, n: nat) {
    source < |l.fields| && !IsChecksumField(l, source) && WireNumber(l, m, d, source) == Some(n)
  }

  /** The gate decides the same from the supplied values as from what the frame will hold. */
  ghost predicate GateConsistent(l: Layout, m: Mapping, d: Derived, i: nat)
    requires i < |l.fields|
  {
    var f := l.fields[i];
    var source := GateSource(f);
    source < |l.fields| && !IsChecksumField(l, source) &&
    match GateNumber(m, l.fields[source].name)
    case None => false
    case Some(n) =>
      GateHolds(f, n) == GateHolds(f, match WireNumber(l, m, d, source) case None => 0 case Some(x) => x)
  }

  // ----- Admissible mappings -----

  /** Anchors in order, and no checksum over itself or a later one. */
  predicate ChecksumsReadable(l: Layout) {
    Settled(l) && forall k | 0 <= k < |l.checksums| :: AnchorsInOrder(l, k)
  }

  predicate AnchorsInOrder(l: Layout, k: nat)
    requires k < |l.checksums|
  {
    AnchorRank(l.checksums[k].from, |l.fields|) <= AnchorRank(l.checksums[k].to, |l.fields|)
  }

  /** Everything the encoder takes on trust about a mapping. */
  ghost predicate Admissible(p: Protocol, l: Layout, m: Mapping)
    requires Compiled(p, l)
    decreases Depth(p, l), 3, 0
  {
    ChecksumsReadable(l) &&
    match Derive(p, l, m, |l.fields|)
    case Err(_) => false
    case Ok(d) => forall i | 0 <= i < |l.fields| :: AdmissibleField(p, l, m, d, i)
  }

  ghost predicate AdmissibleField(p: Protocol, l: Layout, m: Mapping, d: Derived, i: nat)
    requires Compiled(p, l) && i < |l.fields|
    decreases Depth(p, l), 2, 0
  {
    var f := l.fields[i];
    && (f.Gated() ==> GateConsistent(l, m, d, i))
    && (IsChecksumField(l, i) ==> Present(l, i, m) == Some(true) && !f.hasExpected)
    && (i in d.lengths && f.hasExpected ==> d.lengths[i] == f.expected)
    && (Present(l, i, m) == Some(true) && !f.Scalar() && !f.reserved ==> AdmissibleValue(p, l, m, d, i))
  }

  ghost predicate AdmissibleValue(p: Protocol, l: Layout, m: Mapping, d: Derived, i: nat)
    requires Compiled(p, l) && i < |l.fields|
    decreases Depth(p, l), 1, 0
  {
    assert FieldWellFormed(p, l, i);
    var f := l.fields[i];
    f.name in m &&
    if f.kind.Nested? then
      NestedIsCompiled(p, l, f, f.structId);
      AsMapping(m[f.name]).Ok? && Admissible(p, p.structs[f.structId], AsMapping(m[f.name]).value)
    else if f.kind.Collection? then
      NestedIsCompiled(p, l, f, f.structId);
      && AsItems(m[f.name]).Ok?
      && (if f.dynamicCount then Supplies(l, m, d, f.countFrom, |AsItems(m[f.name]).value|)
          else |AsItems(m[f.name]).value| == f.fixedCount)
      && AdmissibleItems(p, p.structs[f.structId], AsItems(m[f.name]).value)
    else if f.kind.Variant? then
      SelectCase(l, f, m).Ok? &&
      var k := SelectCase(l, f, m).value;
      assert CaseWellFormed(p, f, k);
      NestedIsCompiled(p, l, f, f.cases[k].structId);
      && Supplies(l, m, d, f.tagFrom, f.cases[k].tag)
      && AsMapping(m[f.name]).Ok? && Admissible(p, p.structs[f.cases[k].structId], AsMapping(m[f.name]).value)
    else
      && EncodePayload(f, d, m[f.name]).Ok?
      && (f.dynamicSize ==> Supplies(l, m, d, f.sizeFrom, |EncodePayload(f, d, m[f.name]).value|))
      && (f.kind.Text? ==> DecodeText(f.encoding, EncodePayload(f, d, m[f.name]).value).Some?)
  }

  ghost predicate AdmissibleItems(p: Protocol, e: Layout, items: seq<Value>)
    requires Compiled(p, e)
    decreases Depth(p, e), 5, 0
  {
    forall k | 0 <= k < |items| :: AdmissibleItem(p, e, items, k)
  }

  ghost predicate AdmissibleItem(p: Protocol, e: Layout, items: seq<Value>, k: nat)
    requires Compiled(p, e) && k < |items|
    decreases Depth(p, e), 4, 0
  {
    items[k].Rec? && Admissible(p, e, items[k].fields)
  }

  // ----- Completion -----

  /** `out` is the mapping completed with what the frame adds to it: derived lengths, constants,
      fill bytes and checksums, at every nesting level; absent fields are left out. */
  ghost predicate Completes(p: Protocol, l: Layout, m: Mapping, out: Mapping)
    requires Compiled(p, l)
    decreases Depth(p, l), 3, 0
  {
    OnlyNames(l, out, |l.fields|) &&
    match Derive(p, l, m, |l.fields|)
    case Err(_) => false
    case Ok(d) => forall i | 0 <= i < |l.fields| :: FieldDone(p, l, m, d, out, i)
  }

  ghost predicate FieldDone(p: Protocol, l: Layout, m: Mapping, d: Derived, out: Mapping, i: nat)
    requires Compiled(p, l) && i < |l.fields|
    decreases Depth(p, l), 2, 0
  {
    var name := l.fields[i].name;
    match Present(l, i, m)
    case None => false
    case Some(false) => name !in out
    case Some(true) => name in out && FieldCompletes(p, l, m, d, i, out[name])
  }

  ghost predicate FieldCompletes(p: Protocol, l: Layout, m: Mapping, d: Derived, i: nat, v: Value)
    requires Compiled(p, l) && i < |l.fields|
    decreases Depth(p, l), 1, 0
  {
    var f := l.fields[i];
    if IsChecksumField(l, i) then v.Num?
    else if i in d.lengths then v == Num(d.lengths[i])
    else if f.hasExpected then v == Num(f.expected)
    else if f.reserved then v == Blob(Repeat(f.fill, f.fixedSize))
    else f.name in m && ValueCompletes(p, l, m, d, i, v)
  }

  ghost predicate ValueCompletes(p: Protocol, l: Layout, m: Mapping, d: Derived, i: nat, v: Value)
    requires Compiled(p, l) && i < |l.fields| && l.fields[i].name in m
    decreases Depth(p, l), 0, 0
  {
    assert FieldWellFormed(p, l, i);
    var f := l.fields[i];
    if f.Scalar() then v == m[f.name]
    else if f.kind.Nested? then
      NestedIsCompiled(p, l, f, f.structId);
      v.Rec? && AsMapping(m[f.name]).Ok? && Completes(p, p.structs[f.structId], AsMapping(m[f.name]).value, v.fields)
    else if f.kind.Collection? then
      NestedIsCompiled(p, l, f, f.structId);
      && v.List? && AsItems(m[f.name]).Ok?
      && ItemsComplete(p, p.structs[f.structId], AsItems(m[f.name]).value, v.items)
    else if f.kind.Variant? then
      v.Rec? && SelectCase(l, f, m).Ok? && AsMapping(m[f.name]).Ok? &&
      var k := SelectCase(l, f, m).value;
      assert CaseWellFormed(p, f, k);
      NestedIsCompiled(p, l, f, f.cases[k].structId);
      Completes(p, p.structs[f.cases[k].structId], AsMapping(m[f.name]).value, v.fields)
    else
      EncodePayload(f, d, m[f.name]).Ok? &&
      var s := EncodePayload(f, d, m[f.name]).value;
      if f.kind.Text? then v.Str? && DecodeText(f.encoding, s) == Some(v.text) else v == Blob(s)
  }

  ghost predicate ItemsComplete(p: Protocol, e: Layout, items: seq<Value>, outs: seq<Value>)
    requires Compiled(p, e)
    decreases Depth(p, e), 5, 0
  {
    |items| == |outs| && forall k | 0 <= k < |items| :: ItemCompletes(p, e, items, outs, k)
  }

  ghost predicate ItemCompletes(p: Protocol, e: Layout, items: seq<Value>, outs: seq<Value>, k: nat)
    requires Compiled(p, e) && k < |items| && k < |outs|
    decreases Depth(p, e), 4, 0
  {
    items[k].Rec? && outs[k].Rec? && Completes(p, e, items[k].fields, outs[k].fields)
  }
}
