/** Re-encoding what was decoded gives the frame back. */
module CodecReencode {
  import opened Prelude
  import opened Bytes
  import opened Metadata
  import opened Codec
  import opened CodecFacts

  // ----- Which bytes a checksum covers -----

  /** The position of an anchor in the order of field starts and field ends. */
  function AnchorRank(a: Anchor, n: nat): nat {
    match a.kind
    case FrameStart => 0
    case FrameEnd => 2 * n + 1
    case FieldStart => 2 * a.fieldId + 1
    case BeforeSelf => 2 * a.fieldId + 1
    case FieldEnd => 2 * a.fieldId + 2
    case AfterSelf => 2 * a.fieldId + 2
  }

  /** Whether the range of `c` covers field `j`, read off the schema. */
  predicate Covers(c: Checksum, n: nat, j: nat) {
    AnchorRank(c.from, n) <= 2 * j + 1 && 2 * j + 2 <= AnchorRank(c.to, n)
  }

  /** No checksum covers its own field or the field of a later checksum. */
  predicate Settled(l: Layout) {
    forall k, j | 0 <= k <= j < |l.checksums| :: Spares(l, k, j)
  }

  predicate Spares(l: Layout, k: nat, j: nat)
    requires k < |l.checksums| && j < |l.checksums|
  {
    !Covers(l.checksums[k], |l.fields|, l.checksums[j].fieldId)
  }

  predicate AllSettled(p: Protocol, l: Layout) {
    Settled(l) && forall id | 0 <= id < |p.structs| :: Settled(p.structs[id])
  }

  lemma OutsideRange(l: Layout, c: Checksum, spans: seq<Span>, total: nat, j: nat)
    requires AnchorWellFormed(l, c.from) && AnchorWellFormed(l, c.to)
    requires Ordered(spans) && |spans| == |l.fields| && total == Before(spans, |spans|)
    requires j < |spans| && !Covers(c, |l.fields|, j)
    ensures var from, to := AnchorOffset(c.from, spans, total), AnchorOffset(c.to, spans, total);
            from >= spans[j].end || to <= spans[j].start
  {
    OrderedEnds(spans, j);
    if c.from.fieldId < |spans| {
      OrderedEnds(spans, c.from.fieldId);
      if j < c.from.fieldId {
        assert Precedes(spans, j, c.from.fieldId);
      }
    }
    if c.to.fieldId < |spans| {
      OrderedEnds(spans, c.to.fieldId);
      if c.to.fieldId < j {
        assert Precedes(spans, c.to.fieldId, j);
      }
    }
  }

  // ----- The frame with checksum fields blanked -----

  ghost predicate InSpanOf(l: Layout, spans: seq<Span>, j: nat, x: nat)
    requires ChecksumsWellFormed(l) && |spans| == |l.fields| && j < |l.checksums|
  {
    assert ChecksumWellFormed(l, j);
    spans[l.checksums[j].fieldId].start <= x < spans[l.checksums[j].fieldId].end
  }

  ghost predicate InChecksum(l: Layout, spans: seq<Span>, k: nat, x: nat)
    requires ChecksumsWellFormed(l) && |spans| == |l.fields|
  {
    exists j :: k <= j < |l.checksums| && InSpanOf(l, spans, j, x)
  }

  /** The layout's bytes with the fields of checksums `k` and later zeroed. */
  ghost function Blanked(l: Layout, s: seq<byte>, spans: seq<Span>, k: nat): (r: seq<byte>)
    requires ChecksumsWellFormed(l) && |spans| == |l.fields|
    ensures |r| == |s|
  {
    seq(|s|, x requires 0 <= x < |s| => if InChecksum(l, spans, k, x) then 0 else s[x])
  }

  // ----- Padding -----

  ghost predicate ZeroGap(s: seq<byte>, from: nat, to: nat) {
    forall x | from <= x < to && x < |s| :: s[x] == 0
  }

  /** Every alignment gap of the decoded layout, at every nesting level, holds zero bytes. */
  ghost predicate ZeroPadded(p: Protocol, l: Layout, frame: seq<byte>, base: nat)
    requires Compiled(p, l)
    decreases Depth(p, l), 2, 0
  {
    match DecodeFields(p, l, frame, base, |l.fields|)
    case Err(_) => false
    case Ok(st) => forall i | 0 <= i < |l.fields| :: FieldPadded(p, l, frame, base, st, i)
  }

  ghost predicate FieldPadded(p: Protocol, l: Layout, frame: seq<byte>, base: nat, st: Decoding, i: nat)
    requires Compiled(p, l) && i < |l.fields| == |st.spans|
    decreases Depth(p, l), 1, 0
  {
    && ZeroGap(frame, base + Before(st.spans, i), base + st.spans[i].start)
    && (l.fields[i].name in st.out ==> ValuePadded(p, l, i, frame, base + st.spans[i].start, st.out))
  }

  ghost predicate ValuePadded(p: Protocol, l: Layout, i: nat, frame: seq<byte>, at: nat, out: Mapping)
    requires Compiled(p, l) && i < |l.fields| && l.fields[i].name in out
    decreases Depth(p, l), 0, 0
  {
    assert FieldWellFormed(p, l, i);
    var f := l.fields[i];
    if f.kind.Nested? then
      NestedIsCompiled(p, l, f, f.structId);
      ZeroPadded(p, p.structs[f.structId], frame, at)
    else if f.kind.Collection? then
      NestedIsCompiled(p, l, f, f.structId);
      var e := p.structs[f.structId];
      out[f.name].List? ==> ItemsPadded(p, e, frame, at, |out[f.name].items|)
    else if f.kind.Variant? then
      match Decoded(l, f.tagFrom, out)
      case Err(_) => true
      case Ok(tag) =>
        match FindCase(f.cases, tag, 0)
        case None => true
        case Some(k) =>
          assert CaseWellFormed(p, f, k);
          NestedIsCompiled(p, l, f, f.cases[k].structId);
          ZeroPadded(p, p.structs[f.cases[k].structId], frame, at)
    else true
  }

  ghost predicate ItemsPadded(p: Protocol, e: Layout, frame: seq<byte>, at: nat, n: nat)
    requires Compiled(p, e)
    decreases Depth(p, e), 3, n
  {
    n == 0 ||
    (ItemsPadded(p, e, frame, at, n - 1) &&
     match DecodeItems(p, e, frame, at, n - 1)
     case Err(_) => false
     case Ok((_, size)) => ZeroPadded(p, e, frame, at + size))
  }

  // ----- Checksums the encoder would compute -----

  /** Over the consumed bytes with its own and all later checksum fields zeroed, as the encoder computes it,
      checksum `k` is the number the frame holds. */
  ghost predicate DigestRepeats(p: Protocol, l: Layout, frame: seq<byte>, base: nat, st: Decoding, k: nat)
    requires ChecksumsWellFormed(l) && |st.spans| == |l.fields| && k < |l.checksums| && base + st.offset <= |frame|
  {
    assert ChecksumWellFormed(l, k);
    var c := l.checksums[k];
    var name := l.fields[c.fieldId].name;
    var b := Blanked(l, frame[base..base + st.offset], st.spans, k);
    && name in st.out && st.out[name].Num? && st.out[name].n >= 0
    && p.registry(c.algorithm, Slice(b, AnchorOffset(c.from, st.spans, |b|), AnchorOffset(c.to, st.spans, |b|))) == Some(st.out[name].n)
  }

  /** So does every checksum of the decoded layout, at every nesting level. */
  ghost predicate DigestsRepeat(p: Protocol, l: Layout, frame: seq<byte>, base: nat)
    requires Compiled(p, l)
    decreases Depth(p, l), 2, 0
  {
    match DecodeFields(p, l, frame, base, |l.fields|)
    case Err(_) => false
    case Ok(st) =>
      && base + st.offset <= |frame|
      && (forall k | 0 <= k < |l.checksums| :: DigestRepeats(p, l, frame, base, st, k))
      && (forall i | 0 <= i < |l.fields| :: FieldRepeats(p, l, frame, base, st, i))
  }

  ghost predicate FieldRepeats(p: Protocol, l: Layout, frame: seq<byte>, base: nat, st: Decoding, i: nat)
    requires Compiled(p, l) && i < |l.fields| == |st.spans|
    decreases Depth(p, l), 1, 0
  {
    l.fields[i].name in st.out ==> ValueRepeats(p, l, i, frame, base + st.spans[i].start, st.out)
  }

  ghost predicate ValueRepeats(p: Protocol, l: Layout, i: nat, frame: seq<byte>, at: nat, out: Mapping)
    requires Compiled(p, l) && i < |l.fields| && l.fields[i].name in out
    decreases Depth(p, l), 0, 0
  {
    assert FieldWellFormed(p, l, i);
    var f := l.fields[i];
    if f.kind.Nested? then
      NestedIsCompiled(p, l, f, f.structId);
      DigestsRepeat(p, p.structs[f.structId], frame, at)
    else if f.kind.Collection? then
      NestedIsCompiled(p, l, f, f.structId);
      var e := p.structs[f.structId];
      out[f.name].List? ==> ItemsRepeat(p, e, frame, at, |out[f.name].items|)
    else if f.kind.Variant? then
      match Decoded(l, f.tagFrom, out)
      case Err(_) => true
      case Ok(tag) =>
        match FindCase(f.cases, tag, 0)
        case None => true
        case Some(k) =>
          assert CaseWellFormed(p, f, k);
          NestedIsCompiled(p, l, f, f.cases[k].structId);
          DigestsRepeat(p, p.structs[f.cases[k].structId], frame, at)
    else true
  }

  ghost predicate ItemsRepeat(p: Protocol, e: Layout, frame: seq<byte>, at: nat, n: nat)
    requires Compiled(p, e)
    decreases Depth(p, e), 3, n
  {
    n == 0 ||
    (ItemsRepeat(p, e, frame, at, n - 1) &&
     match DecodeItems(p, e, frame, at, n - 1)
     case Err(_) => false
     case Ok((_, size)) => DigestsRepeat(p, e, frame, at + size))
  }

  // ----- Deriving lengths from what was decoded -----

  ghost predicate DerivedMatches(l: Layout, m: Mapping, d: Derived) {
    && (forall id | id in d.lengths ::
          id < |l.fields| && l.fields[id].Counter() && l.fields[id].name in m && m[l.fields[id].name] == Num(d.lengths[id]))
    && (forall id | id in d.payloads ::
          id < |l.fields| && l.fields[id].name in m && PayloadBytes(l.fields[id], m[l.fields[id].name]) == Ok(d.payloads[id]))
  }

  /** A decoded byte or string field supplies exactly the bytes it was read from. */
  lemma PayloadOfDecoded(f: Field, frame: seq<byte>, at: nat, size: nat)
    requires DecodePayload(f, frame, at, size).Ok?
    ensures PayloadBytes(f, DecodePayload(f, frame, at, size).value.0) == Ok(frame[at..at + size])
  {
    if f.kind.Text? {
      EncodeDecodedText(f.encoding, frame[at..at + size]);
    }
  }

  lemma DecodedLength(p: Protocol, l: Layout, frame: seq<byte>, base: nat, m: Mapping, spans: seq<Span>, i: nat)
    requires Compiled(p, l) && i < |l.fields| && i < |spans|
    requires FieldDecoded(p, l, frame, base, m, spans, i) && Present(l, i, m) == Some(true)
    ensures FieldWellFormed(p, l, i)
    ensures var f := l.fields[i];
            && f.name in m && !m[f.name].Nil?
            && ((f.kind.Raw? || f.kind.Text?) && f.dynamicSize ==>
                  && PayloadBytes(f, m[f.name]).Ok?
                  && Decoded(l, f.sizeFrom, m) == Ok(|PayloadBytes(f, m[f.name]).value|))
            && (f.kind.Collection? && f.dynamicCount ==>
                  && LengthOf(m[f.name]).Some?
                  && Decoded(l, f.countFrom, m) == Ok(LengthOf(m[f.name]).value))
  {
    assert FieldWellFormed(p, l, i);
    var f := l.fields[i];
    var at := base + spans[i].start;
    if (f.kind.Raw? || f.kind.Text?) && f.dynamicSize {
      PayloadOfDecoded(f, frame, at, Decoded(l, f.sizeFrom, m).value);
    }
  }

  lemma {:induction false} DeriveDecoded(p: Protocol, l: Layout, frame: seq<byte>, base: nat, m: Mapping, spans: seq<Span>, n: nat)
    requires Compiled(p, l) && n <= |l.fields| == |spans|
    requires forall i | 0 <= i < |l.fields| :: FieldDecoded(p, l, frame, base, m, spans, i)
    ensures Derive(p, l, m, n).Ok? && DerivedMatches(l, m, Derive(p, l, m, n).value)
    decreases n
  {
    if n > 0 {
      DeriveDecoded(p, l, frame, base, m, spans, n - 1);
      assert FieldDecoded(p, l, frame, base, m, spans, n - 1);
      if Present(l, n - 1, m) == Some(true) {
        DecodedLength(p, l, frame, base, m, spans, n - 1);
      }
    }
  }

  // ----- One field -----

  /** A field without structs below it re-encodes to the bytes it was decoded from, unless it is a checksum. */
  lemma ReencodeLeaf(p: Protocol, l: Layout, frame: seq<byte>, base: nat, m: Mapping, spans: seq<Span>, d: Derived, i: nat)
    requires Compiled(p, l) && i < |l.fields| == |spans|
    requires l.fields[i].Scalar() || l.fields[i].kind.Raw? || l.fields[i].kind.Text?
    requires FieldDecoded(p, l, frame, base, m, spans, i) && Present(l, i, m) == Some(true)
    requires DerivedMatches(l, m, d) && !IsChecksumField(l, i)
    ensures base + spans[i].end <= |frame|
    ensures FieldBytes(p, l, m, d, i) == Ok(frame[base + spans[i].start..base + spans[i].end])
  {
    assert FieldWellFormed(p, l, i);
    var f := l.fields[i];
    if f.Scalar() {
      ReencodeScalar(f, frame, base + spans[i].start, m, d);
    } else {
      var size := if f.dynamicSize then Decoded(l, f.sizeFrom, m).value else f.fixedSize;
      ReencodePayload(l, f, frame, base + spans[i].start, size, m, d);
    }
  }

  /** A field other than a checksum re-encodes to the bytes it was decoded from. */
  lemma ReencodeField(p: Protocol, l: Layout, frame: seq<byte>, base: nat, m: Mapping, spans: seq<Span>, d: Derived, i: nat)
    requires Compiled(p, l) && i < |l.fields| == |spans|
    requires FieldDecoded(p, l, frame, base, m, spans, i) && Present(l, i, m) == Some(true)
    requires DerivedMatches(l, m, d) && !IsChecksumField(l, i)
    requires ValuePadded(p, l, i, frame, base + spans[i].start, m) && ValueRepeats(p, l, i, frame, base + spans[i].start, m)
    ensures base + spans[i].end <= |frame|
    ensures FieldBytes(p, l, m, d, i) == Ok(frame[base + spans[i].start..base + spans[i].end])
    decreases Depth(p, l), 1, 0
  {
    var f := l.fields[i];
    if f.Scalar() || f.kind.Raw? || f.kind.Text? {
      ReencodeLeaf(p, l, frame, base, m, spans, d, i);
    } else {
      StructBytes(p, l, m, d, i);
      ReencodeValue(p, l, frame, base, spans[i].start, m, d, i, spans[i].end - spans[i].start);
    }
  }

  /** A field with structs below it is encoded from its value and nothing else. */
  lemma StructBytes(p: Protocol, l: Layout, m: Mapping, d: Derived, i: nat)
    requires Compiled(p, l) && i < |l.fields| && DerivedMatches(l, m, d)
    requires l.fields[i].kind.Nested? || l.fields[i].kind.Collection? || l.fields[i].kind.Variant?
    ensures !IsChecksumField(l, i)
    ensures l.fields[i].name in m ==> FieldBytes(p, l, m, d, i) == EncodeValue(p, l, m, d, i, m[l.fields[i].name])
  {
    assert FieldWellFormed(p, l, i);
    forall j | 0 <= j < |l.checksums|
      ensures l.checksums[j].fieldId != i
    {
      assert ChecksumWellFormed(l, j);
    }
  }

  lemma ReencodeScalar(f: Field, frame: seq<byte>, at: nat, m: Mapping, d: Derived)
    requires f.Scalar() && f.name in m
    requires f.id in d.lengths ==> m[f.name] == Num(d.lengths[f.id])
    requires DecodeScalar(f, frame, at) == Ok((m[f.name], f.width))
    ensures at + f.width <= |frame| && EncodeScalar(f, m[f.name]) == Ok(frame[at..at + f.width])
    ensures f.hasExpected ==> m[f.name] == Num(f.expected)
  {
    EncodeReadScalar(f, frame[at..at + f.width]);
  }

  lemma AllFill(raw: seq<byte>, fill: byte)
    requires Filled(raw, fill)
    ensures Repeat(fill, |raw|) == raw
  {
  }

  lemma ReencodePayload(l: Layout, f: Field, frame: seq<byte>, at: nat, size: nat, m: Mapping, d: Derived)
    requires (f.kind.Raw? || f.kind.Text?) && f.name in m
    requires f.id in d.payloads ==> PayloadBytes(f, m[f.name]) == Ok(d.payloads[f.id])
    requires !f.dynamicSize ==> size == f.fixedSize
    requires f.reserved ==> f.kind.Raw?
    requires DecodePayload(f, frame, at, size) == Ok((m[f.name], size))
    ensures at + size <= |frame| && EncodePayload(f, d, m[f.name]) == Ok(frame[at..at + size])
    ensures f.reserved ==> Repeat(f.fill, size) == frame[at..at + size]
  {
    PayloadOfDecoded(f, frame, at, size);
    if f.reserved {
      AllFill(frame[at..at + size], f.fill);
    }
  }

  lemma ReencodeValue(p: Protocol, l: Layout, frame: seq<byte>, base: nat, offset: nat, m: Mapping, d: Derived, i: nat, size: nat)
    requires Compiled(p, l) && i < |l.fields| && base + offset + size <= |frame|
    requires l.fields[i].kind.Nested? || l.fields[i].kind.Collection? || l.fields[i].kind.Variant?
    requires l.fields[i].name in m && DecodeValue(p, l, i, frame, base, offset, m) == Ok((m[l.fields[i].name], size))
    requires ValuePadded(p, l, i, frame, base + offset, m) && ValueRepeats(p, l, i, frame, base + offset, m)
    ensures EncodeValue(p, l, m, d, i, m[l.fields[i].name]) == Ok(frame[base + offset..base + offset + size])
    decreases Depth(p, l), 0, 0
  {
    assert FieldWellFormed(p, l, i);
    var f := l.fields[i];
    var v := m[f.name];
    var at := base + offset;
    if f.kind.Nested? {
      NestedIsCompiled(p, l, f, f.structId);
      ReencodeLayout(p, p.structs[f.structId], frame, at, false, v.fields, size);
    } else if f.kind.Collection? {
      NestedIsCompiled(p, l, f, f.structId);
      var count := if f.dynamicCount then Decoded(l, f.countFrom, m).value else f.fixedCount;
      ReencodeItems(p, p.structs[f.structId], frame, at, count, v.items, size);
    } else {
      var k := FindCase(f.cases, Decoded(l, f.tagFrom, m).value, 0).value;
      assert CaseWellFormed(p, f, k);
      NestedIsCompiled(p, l, f, f.cases[k].structId);
      ReencodeLayout(p, p.structs[f.cases[k].structId], frame, at, false, v.fields, size);
    }
  }

  /** `n` zero-padded elements, whose checksums repeat, decode to `items` over `total` bytes. */
  ghost predicate ItemsFrom(p: Protocol, e: Layout, frame: seq<byte>, at: nat, n: nat, items: seq<Value>, total: nat)
    requires Compiled(p, e)
  {
    && DecodeItems(p, e, frame, at, n) == Ok((items, total)) && at + total <= |frame|
    && ItemsPadded(p, e, frame, at, n) && ItemsRepeat(p, e, frame, at, n)
  }

  lemma ReencodeItems(p: Protocol, e: Layout, frame: seq<byte>, at: nat, n: nat, items: seq<Value>, total: nat)
    requires Compiled(p, e) && !e.isMessage && ItemsFrom(p, e, frame, at, n, items, total)
    ensures EncodeItems(p, e, items) == Ok(frame[at..at + total])
    decreases Depth(p, e), 5, n
  {
    if n == 0 {
      NoItems(p, e, frame, at);
    } else {
      var before, size, inner := ReencodeLast(p, e, frame, at, n, items, total);
      ReencodeItems(p, e, frame, at, n - 1, before, size);
      EncodeOneMore(p, e, before, inner, frame, at, at + size, at + total);
    }
  }

  lemma ReencodeLast(p: Protocol, e: Layout, frame: seq<byte>, at: nat, n: nat, items: seq<Value>, total: nat)
    returns (before: seq<Value>, size: nat, inner: Mapping)
    requires Compiled(p, e) && !e.isMessage && n > 0 && ItemsFrom(p, e, frame, at, n, items, total)
    ensures ItemsFrom(p, e, frame, at, n - 1, before, size)
    ensures items == before + [Rec(inner)] && size <= total
    ensures EncodeLayout(p, e, inner) == Ok(frame[at + size..at + total])
    decreases Depth(p, e), 4, 1
  {
    var consumed;
    before, size, inner, consumed := LastItem(p, e, frame, at, n);
    LastPadded(p, e, frame, at, n, size);
    ReencodeLayout(p, e, frame, at + size, false, inner, consumed);
  }

  lemma NoItems(p: Protocol, e: Layout, frame: seq<byte>, at: nat)
    requires Compiled(p, e) && at <= |frame|
    ensures DecodeItems(p, e, frame, at, 0) == Ok(([], 0))
    ensures EncodeItems(p, e, []) == Ok(frame[at..at])
  {
    assert frame[at..at] == [];
  }

  lemma LastPadded(p: Protocol, e: Layout, frame: seq<byte>, at: nat, n: nat, size: nat)
    requires Compiled(p, e) && n > 0 && ItemsPadded(p, e, frame, at, n) && ItemsRepeat(p, e, frame, at, n)
    requires DecodeItems(p, e, frame, at, n - 1).Ok? && DecodeItems(p, e, frame, at, n - 1).value.1 == size
    ensures ItemsPadded(p, e, frame, at, n - 1) && ZeroPadded(p, e, frame, at + size)
    ensures ItemsRepeat(p, e, frame, at, n - 1) && DigestsRepeat(p, e, frame, at + size)
  {
  }

  lemma EncodeOneMore(p: Protocol, e: Layout, before: seq<Value>, inner: Mapping, frame: seq<byte>, a: nat, b: nat, c: nat)
    requires Compiled(p, e) && a <= b <= c <= |frame|
    requires EncodeItems(p, e, before) == Ok(frame[a..b]) && EncodeLayout(p, e, inner) == Ok(frame[b..c])
    ensures EncodeItems(p, e, before + [Rec(inner)]) == Ok(frame[a..c])
  {
    var items := before + [Rec(inner)];
    assert items[..|items| - 1] == before;
    Adjoin(frame, a, b, c);
  }

  // ----- All fields -----

  /** Spans of different fields share no byte. */
  lemma SpansApart(spans: seq<Span>, i: nat, j: nat, x: nat)
    requires Ordered(spans) && i < |spans| && j < |spans| && i != j
    requires spans[i].start <= x < spans[i].end
    ensures !(spans[j].start <= x < spans[j].end)
  {
    assert if i < j then Precedes(spans, i, j) else Precedes(spans, j, i);
  }

  lemma BlankedPiece(l: Layout, s: seq<byte>, spans: seq<Span>, i: nat)
    requires ChecksumsWellFormed(l) && |spans| == |l.fields| && Ordered(spans) && i < |spans|
    requires Before(spans, |spans|) == |s|
    ensures Before(spans, i) <= spans[i].start <= spans[i].end <= |s|
    ensures IsChecksumField(l, i) ==> Blanked(l, s, spans, 0)[spans[i].start..spans[i].end] == Repeat(0, spans[i].end - spans[i].start)
    ensures !IsChecksumField(l, i) ==> Blanked(l, s, spans, 0)[spans[i].start..spans[i].end] == s[spans[i].start..spans[i].end]
  {
    OrderedEnds(spans, i);
    var b := Blanked(l, s, spans, 0);
    if IsChecksumField(l, i) {
      var c :| c in l.checksums && c.fieldId == i;
      var j :| 0 <= j < |l.checksums| && l.checksums[j] == c;
      forall x | spans[i].start <= x < spans[i].end
        ensures b[x] == 0
      {
        assert InSpanOf(l, spans, j, x);
      }
    } else {
      forall x | spans[i].start <= x < spans[i].end
        ensures b[x] == s[x]
      {
        forall j | 0 <= j < |l.checksums|
          ensures !InSpanOf(l, spans, j, x)
        {
          assert ChecksumWellFormed(l, j) && l.checksums[j] in l.checksums;
          SpansApart(spans, i, l.checksums[j].fieldId, x);
        }
      }
    }
  }

  /** Pieces laid out one after the other. */
  function Assemble(pieces: seq<Piece>): (w: Written)
    ensures |w.spans| == |pieces|
  {
    if pieces == [] then Written([], [])
    else Append(Assemble(pieces[..|pieces| - 1]), pieces[|pieces| - 1])
  }

  lemma {:induction false} EncodeFieldsAssembles(p: Protocol, l: Layout, m: Mapping, d: Derived, pieces: seq<Piece>, n: nat)
    requires Compiled(p, l) && n <= |l.fields| == |pieces|
    requires forall i | 0 <= i < n :: PieceOf(p, l, m, d, i) == Ok(pieces[i])
    ensures EncodeFields(p, l, m, d, n) == Ok(Assemble(pieces[..n]))
    decreases n
  {
    if n > 0 {
      EncodeFieldsAssembles(p, l, m, d, pieces, n - 1);
      assert pieces[..n][..n - 1] == pieces[..n - 1];
    }
  }

  /** `piece` is what lies between the end of the span before `i` and the end of span `i`. */
  ghost predicate Fits(piece: Piece, b: seq<byte>, spans: seq<Span>, i: nat)
    requires i < |spans|
  {
    match piece
    case Skip => spans[i] == Span(Before(spans, i), Before(spans, i))
    case Put(alignment, bytes) =>
      && spans[i].start == AlignUp(Before(spans, i), alignment)
      && spans[i].start <= spans[i].end <= |b|
      && b[spans[i].start..spans[i].end] == bytes
      && ZeroGap(b, Before(spans, i), spans[i].start)
  }

  lemma ThroughGap(b: seq<byte>, o: nat, start: nat, end: nat)
    requires o <= start <= end <= |b| && ZeroGap(b, o, start)
    ensures b[..end] == b[..o] + Repeat(0, start - o) + b[start..end]
  {
  }

  lemma AppendCut(piece: Piece, b: seq<byte>, spans: seq<Span>, i: nat)
    requires i < |spans| && Before(spans, i) <= |b| && Fits(piece, b, spans, i)
    ensures Before(spans, i + 1) <= |b|
    ensures Append(Written(b[..Before(spans, i)], spans[..i]), piece) == Written(b[..Before(spans, i + 1)], spans[..i + 1])
  {
    assert spans[..i + 1] == spans[..i] + [spans[i]];
    if piece.Put? {
      ThroughGap(b, Before(spans, i), spans[i].start, spans[i].end);
    }
  }

  lemma {:induction false} AssembleFits(pieces: seq<Piece>, b: seq<byte>, spans: seq<Span>, n: nat)
    requires n <= |pieces| == |spans|
    requires forall i | 0 <= i < n :: Fits(pieces[i], b, spans, i)
    ensures Before(spans, n) <= |b|
    ensures Assemble(pieces[..n]) == Written(b[..Before(spans, n)], spans[..n])
    decreases n
  {
    if n > 0 {
      AssembleFits(pieces, b, spans, n - 1);
      assert pieces[..n][..n - 1] == pieces[..n - 1];
      AppendCut(pieces[n - 1], b, spans, n - 1);
    }
  }

  /** The piece field `i` contributes when it is cut out of the blanked frame. */
  ghost function CutPiece(l: Layout, m: Mapping, b: seq<byte>, spans: seq<Span>, i: nat): Piece
    requires i < |l.fields| == |spans| && spans[i].start <= spans[i].end <= |b|
  {
    if Present(l, i, m) == Some(true) then Put(l.fields[i].alignment, b[spans[i].start..spans[i].end]) else Skip
  }

  /** Field `i` of the decoded mapping re-encodes to its piece of the blanked frame. */
  lemma ReencodePiece(p: Protocol, l: Layout, frame: seq<byte>, base: nat, m: Mapping, spans: seq<Span>, d: Derived, i: nat)
    requires Compiled(p, l) && i < |l.fields| == |spans| && Ordered(spans)
    requires base + Before(spans, |spans|) <= |frame|
    requires FieldDecoded(p, l, frame, base, m, spans, i)
    requires DerivedMatches(l, m, d)
    requires ZeroGap(frame, base + Before(spans, i), base + spans[i].start)
    requires l.fields[i].name in m ==> ValuePadded(p, l, i, frame, base + spans[i].start, m)
    requires l.fields[i].name in m ==> ValueRepeats(p, l, i, frame, base + spans[i].start, m)
    ensures var b := Blanked(l, frame[base..base + Before(spans, |spans|)], spans, 0);
            && spans[i].start <= spans[i].end <= |b|
            && Fits(CutPiece(l, m, b, spans, i), b, spans, i)
            && PieceOf(p, l, m, d, i) == Ok(CutPiece(l, m, b, spans, i))
    decreases Depth(p, l), 2, 0
  {
    var s := frame[base..base + Before(spans, |spans|)];
    var b := Blanked(l, s, spans, 0);
    BlankedPiece(l, s, spans, i);
    assert FieldWellFormed(p, l, i);
    if Present(l, i, m) == Some(true) {
      assert ZeroGap(b, Before(spans, i), spans[i].start);
      SliceOfSlice(frame, base, base + |s|, spans[i].start, spans[i].end);
      if IsChecksumField(l, i) {
        var c :| c in l.checksums && c.fieldId == i;
        var j :| 0 <= j < |l.checksums| && l.checksums[j] == c;
        assert ChecksumWellFormed(l, j);
        CounterSize(p, l, frame, base, m, spans, i);
      } else {
        ReencodeField(p, l, frame, base, m, spans, d, i);
      }
    }
  }

  lemma CounterSize(p: Protocol, l: Layout, frame: seq<byte>, base: nat, m: Mapping, spans: seq<Span>, i: nat)
    requires Compiled(p, l) && i < |l.fields| == |spans| && l.fields[i].Counter()
    requires FieldDecoded(p, l, frame, base, m, spans, i) && Present(l, i, m) == Some(true)
    ensures spans[i].end == spans[i].start + l.fields[i].width && base + spans[i].end <= |frame|
    ensures DecodeScalar(l.fields[i], frame, base + spans[i].start) == Ok((m[l.fields[i].name], l.fields[i].width))
  {
    assert FieldWellFormed(p, l, i);
  }

  // ----- Checksums -----

  lemma {:induction false} EachVerified(p: Protocol, l: Layout, frame: seq<byte>, base: nat, st: Decoding, limit: nat, n: nat, k: nat)
    requires ChecksumsWellFormed(l) && |st.spans| == |l.fields| && k < n <= |l.checksums|
    requires VerifyChecksums(p, l, frame, base, st, limit, n).Ok?
    ensures ChecksumWellFormed(l, k) && VerifyOne(p, l, k, frame, base, st, limit).Ok?
    decreases n
  {
    if k < n - 1 {
      EachVerified(p, l, frame, base, st, limit, n - 1, k);
    }
  }

  /** A range that avoids the blanked fields reads the same in the blanked and in the real frame. */
  lemma BlankedRange(l: Layout, s: seq<byte>, spans: seq<Span>, k: nat)
    requires ChecksumsWellFormed(l) && Settled(l) && |spans| == |l.fields| && Ordered(spans)
    requires |s| == Before(spans, |spans|) && k < |l.checksums|
    ensures ChecksumWellFormed(l, k)
    ensures var c := l.checksums[k];
            var from, to := AnchorOffset(c.from, spans, |s|), AnchorOffset(c.to, spans, |s|);
            from <= to <= |s| ==> Slice(Blanked(l, s, spans, k), from, to) == s[from..to]
  {
    assert ChecksumWellFormed(l, k);
    var c := l.checksums[k];
    var from, to := AnchorOffset(c.from, spans, |s|), AnchorOffset(c.to, spans, |s|);
    forall x | from <= x < to && x < |s|
      ensures Blanked(l, s, spans, k)[x] == s[x]
    {
      forall j | k <= j < |l.checksums|
        ensures !InSpanOf(l, spans, j, x)
      {
        assert ChecksumWellFormed(l, j) && Spares(l, k, j);
        OutsideRange(l, c, spans, |s|, l.checksums[j].fieldId);
      }
    }
  }

  /** Writing checksum `k` back restores exactly its field. */
  lemma UnblankOne(l: Layout, s: seq<byte>, spans: seq<Span>, k: nat)
    requires ChecksumsWellFormed(l) && |spans| == |l.fields| && Ordered(spans)
    requires |s| == Before(spans, |spans|) && k < |l.checksums|
    ensures ChecksumWellFormed(l, k)
    ensures var span := spans[l.checksums[k].fieldId];
            && span.start <= span.end <= |s|
            && Patch(Blanked(l, s, spans, k), span.start, s[span.start..span.end]) == Blanked(l, s, spans, k + 1)
  {
    assert ChecksumWellFormed(l, k);
    var span := spans[l.checksums[k].fieldId];
    OrderedEnds(spans, l.checksums[k].fieldId);
    var was, now := Blanked(l, s, spans, k), Blanked(l, s, spans, k + 1);
    forall x | 0 <= x < |s|
      ensures now[x] == if span.start <= x < span.end then s[x] else was[x]
    {
      UnblankByte(l, spans, k, x);
    }
    assert Patch(was, span.start, s[span.start..span.end]) == now;
  }

  lemma UnblankByte(l: Layout, spans: seq<Span>, k: nat, x: nat)
    requires ChecksumsWellFormed(l) && |spans| == |l.fields| && Ordered(spans) && k < |l.checksums|
    ensures InChecksum(l, spans, k, x) <==> InSpanOf(l, spans, k, x) || InChecksum(l, spans, k + 1, x)
    ensures InSpanOf(l, spans, k, x) ==> !InChecksum(l, spans, k + 1, x)
  {
    assert ChecksumWellFormed(l, k);
    if InSpanOf(l, spans, k, x) {
      forall j | k + 1 <= j < |l.checksums|
        ensures !InSpanOf(l, spans, j, x)
      {
        assert ChecksumWellFormed(l, j) && ChecksumsDiffer(l, k, j);
        SpansApart(spans, l.checksums[k].fieldId, l.checksums[j].fieldId, x);
      }
    }
  }

  /** A checksum that verifies is the registry's digest of its range. */
  lemma VerifiedDigest(p: Protocol, l: Layout, frame: seq<byte>, base: nat, st: Decoding, limit: nat, k: nat)
    requires k < |l.checksums| && ChecksumWellFormed(l, k) && |st.spans| == |l.fields|
    requires VerifyOne(p, l, k, frame, base, st, limit).Ok? && base + limit <= |frame|
    ensures var c := l.checksums[k];
            var from, to := AnchorOffset(c.from, st.spans, limit), AnchorOffset(c.to, st.spans, limit);
            var name := l.fields[c.fieldId].name;
            && from <= to <= limit && name in st.out && st.out[name].Num? && st.out[name].n >= 0
            && p.registry(c.algorithm, frame[base..base + limit][from..to]) == Some(st.out[name].n)
  {
    var c := l.checksums[k];
    var from, to := AnchorOffset(c.from, st.spans, limit), AnchorOffset(c.to, st.spans, limit);
    SliceOfSlice(frame, base, base + limit, from, to);
  }

  lemma PatchWith(p: Protocol, l: Layout, k: nat, spans: seq<Span>, s: seq<byte>, digest: nat, field: seq<byte>)
    requires k < |l.checksums| && ChecksumWellFormed(l, k) && |spans| == |l.fields|
    requires var c := l.checksums[k];
             && p.registry(c.algorithm, Slice(s, AnchorOffset(c.from, spans, |s|), AnchorOffset(c.to, spans, |s|))) == Some(digest)
             && digest < Pow256(l.fields[c.fieldId].width)
             && ToBytes(digest, l.fields[c.fieldId].width, l.fields[c.fieldId].order) == field
             && spans[c.fieldId].start <= |s|
    ensures PatchOne(p, l, k, spans, s) == Ok(Patch(s, spans[l.checksums[k].fieldId].start, field))
  {
  }

  /** Checksums that each restore their own field restore the whole frame. */
  lemma {:induction false} PatchRestores(p: Protocol, l: Layout, s: seq<byte>, spans: seq<Span>, k: nat)
    requires ChecksumsWellFormed(l) && |spans| == |l.fields| && k <= |l.checksums|
    requires forall j | 0 <= j < k :: Restores(p, l, s, spans, j)
    ensures PatchChecksums(p, l, Written(Blanked(l, s, spans, 0), spans), k) == Ok(Blanked(l, s, spans, k))
    decreases k
  {
    if k > 0 {
      PatchRestores(p, l, s, spans, k - 1);
      assert Restores(p, l, s, spans, k - 1);
    }
  }

  ghost predicate Restores(p: Protocol, l: Layout, s: seq<byte>, spans: seq<Span>, k: nat)
    requires ChecksumsWellFormed(l) && |spans| == |l.fields| && k < |l.checksums|
  {
    assert ChecksumWellFormed(l, k);
    PatchOne(p, l, k, spans, Blanked(l, s, spans, k)) == Ok(Blanked(l, s, spans, k + 1))
  }

  lemma RestoreOne(p: Protocol, l: Layout, frame: seq<byte>, base: nat, st: Decoding, k: nat)
    requires Compiled(p, l) && |st.spans| == |l.fields| && Ordered(st.spans) && k < |l.checksums|
    requires st.offset == Before(st.spans, |st.spans|) && base + st.offset <= |frame|
    requires forall i | 0 <= i < |l.fields| :: FieldDecoded(p, l, frame, base, st.out, st.spans, i)
    requires DigestRepeats(p, l, frame, base, st, k)
    ensures Restores(p, l, frame[base..base + st.offset], st.spans, k)
  {
    var s := frame[base..base + st.offset];
    UnblankOne(l, s, st.spans, k);
    var id := l.checksums[k].fieldId;
    var span := st.spans[id];
    assert FieldDecoded(p, l, frame, base, st.out, st.spans, id);
    DigestBytes(p, l, frame, base, st, k);
    SliceOfSlice(frame, base, base + st.offset, span.start, span.end);
    PatchWith(p, l, k, st.spans, Blanked(l, s, st.spans, k), st.out[l.fields[id].name].n, s[span.start..span.end]);
  }

  lemma DigestBytes(p: Protocol, l: Layout, frame: seq<byte>, base: nat, st: Decoding, k: nat)
    requires Compiled(p, l) && k < |l.checksums| && ChecksumWellFormed(l, k) && |st.spans| == |l.fields|
    requires FieldDecoded(p, l, frame, base, st.out, st.spans, l.checksums[k].fieldId)
    requires l.fields[l.checksums[k].fieldId].name in st.out
    ensures var f := l.fields[l.checksums[k].fieldId];
            var span := st.spans[l.checksums[k].fieldId];
            && span.end == span.start + f.width && base + span.end <= |frame|
            && st.out[f.name].Num? && 0 <= st.out[f.name].n < Pow256(f.width)
            && ToBytes(st.out[f.name].n, f.width, f.order) == frame[base + span.start..base + span.end]
  {
    var f := l.fields[l.checksums[k].fieldId];
    var span := st.spans[l.checksums[k].fieldId];
    CounterSize(p, l, frame, base, st.out, st.spans, l.checksums[k].fieldId);
    WriteRead(frame[base + span.start..base + span.start + f.width], f.order);
  }

  // ----- The theorem -----

  /** Re-encoding the decoded mapping gives back exactly the consumed bytes, provided the gaps were zero and
      every checksum is the one the encoder computes. */
  lemma ReencodeLayout(p: Protocol, l: Layout, frame: seq<byte>, base: nat, bounded: bool, m: Mapping, consumed: nat)
    requires Compiled(p, l) && DecodeLayout(p, l, frame, base, bounded) == Ok((m, consumed))
    requires ZeroPadded(p, l, frame, base) && DigestsRepeat(p, l, frame, base)
    ensures base + consumed <= |frame| && EncodeLayout(p, l, m) == Ok(frame[base..base + consumed])
    decreases Depth(p, l), 4, 0
  {
    var n := |l.fields|;
    var st := FieldsOf(p, l, frame, base, bounded);
    DecodeFieldsFlat(p, l, frame, base, n);
    FlatIsOrdered(p, l, frame, base, st.out, st.spans, n);
    assert st.spans[..n] == st.spans;
    DeriveDecoded(p, l, frame, base, st.out, st.spans, n);
    var d := Derive(p, l, st.out, n).value;
    var s := frame[base..base + st.offset];
    ReencodeFields(p, l, frame, base, st, d);
    forall k | 0 <= k < |l.checksums|
      ensures Restores(p, l, s, st.spans, k)
    {
      assert DigestRepeats(p, l, frame, base, st, k);
      RestoreOne(p, l, frame, base, st, k);
    }
    PatchRestores(p, l, s, st.spans, |l.checksums|);
    assert Blanked(l, s, st.spans, |l.checksums|) == s;
    EncodeFrom(p, l, st.out, d, Written(Blanked(l, s, st.spans, 0), st.spans));
  }

  /** The field loop behind a successful decoding. */
  lemma FieldsOf(p: Protocol, l: Layout, frame: seq<byte>, base: nat, bounded: bool) returns (st: Decoding)
    requires Compiled(p, l) && DecodeLayout(p, l, frame, base, bounded).Ok?
    ensures DecodeFields(p, l, frame, base, |l.fields|) == Ok(st) && base + st.offset <= |frame|
    ensures DecodeLayout(p, l, frame, base, bounded).value == (st.out, st.offset)
    ensures var limit := if l.isMessage && l.allowTrailing then |frame| - base else st.offset;
            VerifyChecksums(p, l, frame, base, st, limit, |l.checksums|).Ok?
  {
    st := DecodeFields(p, l, frame, base, |l.fields|).value;
  }

  lemma EncodeFrom(p: Protocol, l: Layout, m: Mapping, d: Derived, w: Written)
    requires Compiled(p, l) && Derive(p, l, m, |l.fields|) == Ok(d)
    requires EncodeFields(p, l, m, d, |l.fields|) == Ok(w) && |w.spans| == |l.fields|
    ensures EncodeLayout(p, l, m) == PatchChecksums(p, l, w, |l.checksums|)
  {
  }

  lemma ReencodeFields(p: Protocol, l: Layout, frame: seq<byte>, base: nat, st: Decoding, d: Derived)
    requires Compiled(p, l) && |st.spans| == |l.fields| && Ordered(st.spans)
    requires forall i | 0 <= i < |l.fields| :: FieldPadded(p, l, frame, base, st, i) && FieldRepeats(p, l, frame, base, st, i)
    requires st.offset == Before(st.spans, |st.spans|) && base + st.offset <= |frame|
    requires forall i | 0 <= i < |l.fields| :: FieldDecoded(p, l, frame, base, st.out, st.spans, i)
    requires DerivedMatches(l, st.out, d)
    ensures EncodeFields(p, l, st.out, d, |l.fields|)
            == Ok(Written(Blanked(l, frame[base..base + st.offset], st.spans, 0), st.spans))
    decreases Depth(p, l), 3, 1
  {
    var n := |l.fields|;
    var b := Blanked(l, frame[base..base + st.offset], st.spans, 0);
    var pieces := CutPieces(p, l, frame, base, st, d);
    EncodeFieldsAssembles(p, l, st.out, d, pieces, n);
    AssembleFits(pieces, b, st.spans, n);
    assert pieces[..n] == pieces && st.spans[..n] == st.spans && b[..|b|] == b;
  }

  lemma CutPieces(p: Protocol, l: Layout, frame: seq<byte>, base: nat, st: Decoding, d: Derived) returns (pieces: seq<Piece>)
    requires Compiled(p, l) && |st.spans| == |l.fields| && Ordered(st.spans)
    requires forall i | 0 <= i < |l.fields| :: FieldPadded(p, l, frame, base, st, i) && FieldRepeats(p, l, frame, base, st, i)
    requires st.offset == Before(st.spans, |st.spans|) && base + st.offset <= |frame|
    requires forall i | 0 <= i < |l.fields| :: FieldDecoded(p, l, frame, base, st.out, st.spans, i)
    requires DerivedMatches(l, st.out, d)
    ensures |pieces| == |l.fields|
    ensures var b := Blanked(l, frame[base..base + st.offset], st.spans, 0);
            forall i | 0 <= i < |l.fields| :: Fits(pieces[i], b, st.spans, i)
    ensures forall i | 0 <= i < |l.fields| :: PieceOf(p, l, st.out, d, i) == Ok(pieces[i])
    decreases Depth(p, l), 3, 0
  {
    var b := Blanked(l, frame[base..base + st.offset], st.spans, 0);
    forall i | 0 <= i < |l.fields|
      ensures st.spans[i].start <= st.spans[i].end <= |b|
      ensures Fits(CutPiece(l, st.out, b, st.spans, i), b, st.spans, i)
      ensures PieceOf(p, l, st.out, d, i) == Ok(CutPiece(l, st.out, b, st.spans, i))
    {
      assert FieldPadded(p, l, frame, base, st, i) && FieldRepeats(p, l, frame, base, st, i);
      assert FieldDecoded(p, l, frame, base, st.out, st.spans, i);
      ReencodePiece(p, l, frame, base, st.out, st.spans, d, i);
    }
    pieces := seq(|l.fields|, i requires 0 <= i < |l.fields| => CutPiece(l, st.out, b, st.spans, i));
  }
}
