/** Re-encoding gives the frame back exactly when its alignment gaps hold zero bytes. */
module CodecExact {
  import opened Prelude
  import opened Bytes
  import opened Metadata
  import opened Codec
  import opened CodecFacts
  import opened CodecLocality
  import opened CodecReencode
  import opened CodecAdmissible
  import opened CodecDecodeEncoded
  import opened SchemaLayouts

  // ----- Re-encoding keeps every size -----

  /** The re-encoded fields go where the decoded ones were. */
  lemma {:induction false} SameSpans(p: Protocol, l: Layout, frame: seq<byte>, base: nat, m: Mapping, spans: seq<Span>,
                                     pieces: seq<Piece>, n: nat)
    requires Compiled(p, l) && n <= |l.fields| == |spans| == |pieces|
    requires forall i | 0 <= i < n :: FieldDecoded(p, l, frame, base, m, spans, i)
    requires forall i | 0 <= i < n :: SameSize(l, m, spans, pieces[i], i)
    ensures Assemble(pieces[..n]).spans == spans[..n] && |Assemble(pieces[..n]).bytes| == Before(spans, n)
    decreases n
  {
    if n > 0 {
      SameSpans(p, l, frame, base, m, spans, pieces, n - 1);
      assert pieces[..n][..n - 1] == pieces[..n - 1];
      assert spans[..n] == spans[..n - 1] + [spans[n - 1]];
      assert FieldDecoded(p, l, frame, base, m, spans, n - 1) && SameSize(l, m, spans, pieces[n - 1], n - 1);
    }
  }

  ghost predicate SameSize(l: Layout, m: Mapping, spans: seq<Span>, piece: Piece, i: nat)
    requires i < |l.fields| == |spans|
  {
    match piece
    case Skip => Present(l, i, m) == Some(false)
    case Put(alignment, bytes) =>
      && Present(l, i, m) == Some(true) && alignment == l.fields[i].alignment
      && spans[i].start + |bytes| == spans[i].end
  }

  lemma ChecksumIsCounter(l: Layout, i: nat)
    requires ChecksumsWellFormed(l) && IsChecksumField(l, i)
    ensures i < |l.fields| && l.fields[i].Counter()
  {
    var c :| c in l.checksums && c.fieldId == i;
    var j :| 0 <= j < |l.checksums| && l.checksums[j] == c;
    assert ChecksumWellFormed(l, j);
  }

  lemma FieldSize(p: Protocol, l: Layout, frame: seq<byte>, base: nat, m: Mapping, spans: seq<Span>, d: Derived, i: nat, bytes: seq<byte>)
    requires Compiled(p, l) && i < |l.fields| == |spans|
    requires FieldDecoded(p, l, frame, base, m, spans, i) && Present(l, i, m) == Some(true) && DerivedMatches(l, m, d)
    requires FieldBytes(p, l, m, d, i) == Ok(bytes)
    ensures spans[i].start + |bytes| == spans[i].end
    decreases Depth(p, l), 2, 0
  {
    assert FieldWellFormed(p, l, i);
    var f := l.fields[i];
    if IsChecksumField(l, i) {
      ChecksumIsCounter(l, i);
      CounterSize(p, l, frame, base, m, spans, i);
    } else if f.kind.Raw? || f.kind.Text? {
      var size := if f.dynamicSize then Decoded(l, f.sizeFrom, m).value else f.fixedSize;
      PayloadOfDecoded(f, frame, base + spans[i].start, size);
    } else if !f.Scalar() {
      ValueSize(p, l, frame, base, spans[i].start, m, d, i, spans[i].end - spans[i].start, bytes);
    }
  }

  lemma ValueSize(p: Protocol, l: Layout, frame: seq<byte>, base: nat, offset: nat, m: Mapping, d: Derived, i: nat, size: nat, bytes: seq<byte>)
    requires Compiled(p, l) && i < |l.fields|
    requires l.fields[i].kind.Nested? || l.fields[i].kind.Collection? || l.fields[i].kind.Variant?
    requires l.fields[i].name in m && DecodeValue(p, l, i, frame, base, offset, m) == Ok((m[l.fields[i].name], size))
    requires EncodeValue(p, l, m, d, i, m[l.fields[i].name]) == Ok(bytes)
    ensures |bytes| == size
    decreases Depth(p, l), 1, 0
  {
    assert FieldWellFormed(p, l, i);
    var f := l.fields[i];
    var v := m[f.name];
    if f.kind.Nested? {
      NestedIsCompiled(p, l, f, f.structId);
      LayoutSize(p, p.structs[f.structId], frame, base + offset, false, v.fields, size, bytes);
    } else if f.kind.Collection? {
      NestedIsCompiled(p, l, f, f.structId);
      var count := if f.dynamicCount then Decoded(l, f.countFrom, m).value else f.fixedCount;
      ItemsSize(p, p.structs[f.structId], frame, base + offset, count, v.items, size, bytes);
    } else {
      var k := FindCase(f.cases, Decoded(l, f.tagFrom, m).value, 0).value;
      assert CaseWellFormed(p, f, k);
      NestedIsCompiled(p, l, f, f.cases[k].structId);
      LayoutSize(p, p.structs[f.cases[k].structId], frame, base + offset, false, v.fields, size, bytes);
    }
  }

  /** The decoded elements re-encode. */
  ghost predicate ItemsEncode(p: Protocol, e: Layout, frame: seq<byte>, at: nat, n: nat, items: seq<Value>, total: nat, bytes: seq<byte>)
    requires Compiled(p, e)
  {
    ItemsDecode(p, e, frame, at, n, items, total) && EncodeItems(p, e, items) == Ok(bytes)
  }

  lemma ItemsSize(p: Protocol, e: Layout, frame: seq<byte>, at: nat, n: nat, items: seq<Value>, total: nat, bytes: seq<byte>)
    requires Compiled(p, e) && ItemsEncode(p, e, frame, at, n, items, total, bytes)
    ensures |bytes| == total
    decreases Depth(p, e), 6, n
  {
    if n > 0 {
      var before, size, first := LastSize(p, e, frame, at, n, items, total, bytes);
      ItemsSize(p, e, frame, at, n - 1, before, size, first);
    }
  }

  lemma LastSize(p: Protocol, e: Layout, frame: seq<byte>, at: nat, n: nat, items: seq<Value>, total: nat, bytes: seq<byte>)
    returns (before: seq<Value>, size: nat, first: seq<byte>)
    requires Compiled(p, e) && n > 0 && ItemsEncode(p, e, frame, at, n, items, total, bytes)
    ensures ItemsEncode(p, e, frame, at, n - 1, before, size, first) && |bytes| - |first| == total - size
    decreases Depth(p, e), 5, 0
  {
    var inner, consumed;
    before, size, inner, consumed := LastDecoded(p, e, frame, at, n, items, total);
    var rest;
    first, rest := SplitEncoded(p, e, items, before, inner, bytes);
    LayoutSize(p, e, frame, at + size, false, inner, consumed, rest);
  }

  ghost predicate ItemsDecode(p: Protocol, e: Layout, frame: seq<byte>, at: nat, n: nat, items: seq<Value>, total: nat)
    requires Compiled(p, e)
  {
    DecodeItems(p, e, frame, at, n) == Ok((items, total))
  }

  lemma LastDecoded(p: Protocol, e: Layout, frame: seq<byte>, at: nat, n: nat, items: seq<Value>, total: nat)
    returns (before: seq<Value>, size: nat, inner: Mapping, consumed: nat)
    requires Compiled(p, e) && n > 0 && ItemsDecode(p, e, frame, at, n, items, total)
    ensures ItemsDecode(p, e, frame, at, n - 1, before, size) && items == before + [Rec(inner)] && total == size + consumed
    ensures DecodeLayout(p, e, frame, at + size, false) == Ok((inner, consumed)) && at + size <= |frame|
  {
    before, size, inner, consumed := LastItem(p, e, frame, at, n);
  }

  lemma SplitEncoded(p: Protocol, e: Layout, items: seq<Value>, before: seq<Value>, inner: Mapping, bytes: seq<byte>)
    returns (first: seq<byte>, rest: seq<byte>)
    requires Compiled(p, e) && items == before + [Rec(inner)] && EncodeItems(p, e, items) == Ok(bytes)
    ensures EncodeItems(p, e, before) == Ok(first) && EncodeLayout(p, e, inner) == Ok(rest) && bytes == first + rest
  {
    assert items[..|items| - 1] == before;
    first, rest := EncodeItems(p, e, before).value, EncodeLayout(p, e, inner).value;
  }

  /** A decoded mapping re-encodes, if at all, to as many bytes as it was decoded from. */
  lemma LayoutSize(p: Protocol, l: Layout, frame: seq<byte>, base: nat, bounded: bool, m: Mapping, consumed: nat, e: seq<byte>)
    requires Compiled(p, l) && DecodeLayout(p, l, frame, base, bounded) == Ok((m, consumed)) && EncodeLayout(p, l, m) == Ok(e)
    ensures |e| == consumed
    decreases Depth(p, l), 4, 0
  {
    var d, spans, frames := ReencodedLaidOut(p, l, frame, base, bounded, m, consumed, e);
  }

  // ----- The frames between the patches -----

  ghost predicate ZeroChecksums(l: Layout, s: seq<byte>, spans: seq<Span>)
    requires ChecksumsWellFormed(l) && |spans| == |l.fields|
  {
    forall k, x: nat | 0 <= k < |l.checksums| && x < |s| && InSpanOf(l, spans, k, x) :: s[x] == 0
  }

  /** `e` comes about by patching the checksums, one after the other, into a frame in which they are zero. */
  ghost predicate Unfolds(p: Protocol, l: Layout, e: seq<byte>, spans: seq<Span>, frames: seq<seq<byte>>)
    requires ChecksumsWellFormed(l) && |spans| == |l.fields|
  {
    && |frames| == |l.checksums| + 1 && frames[|l.checksums|] == e && Trace(p, l, spans, frames)
    && Ordered(spans) && FullWidth(l, spans, |e|) && ZeroChecksums(l, frames[0], spans)
  }

  lemma ChecksumsStartZero(p: Protocol, l: Layout, frame: seq<byte>, base: nat, m: Mapping, spans: seq<Span>, d: Derived,
                           pieces: seq<Piece>, s: seq<byte>)
    requires Compiled(p, l) && |l.fields| == |spans| == |pieces|
    requires forall i | 0 <= i < |l.fields| :: FieldDecoded(p, l, frame, base, m, spans, i)
    requires forall k | 0 <= k < |l.checksums| :: l.checksums[k].fieldId < |l.fields| && l.fields[l.checksums[k].fieldId].name in m
    requires forall i | 0 <= i < |l.fields| :: PieceOf(p, l, m, d, i) == Ok(pieces[i]) && Fits(pieces[i], s, spans, i)
    ensures ZeroChecksums(l, s, spans)
  {
    forall k, x: nat | 0 <= k < |l.checksums| && x < |s| && InSpanOf(l, spans, k, x)
      ensures s[x] == 0
    {
      var id := l.checksums[k].fieldId;
      assert FieldDecoded(p, l, frame, base, m, spans, id) && PieceOf(p, l, m, d, id) == Ok(pieces[id]) && Fits(pieces[id], s, spans, id);
      assert l.checksums[k] in l.checksums;
      ChecksumPieceIsZero(p, l, m, d, id, pieces[id]);
      ZeroPiece(pieces[id], s, spans, id, x);
    }
  }

  lemma ChecksumPieceIsZero(p: Protocol, l: Layout, m: Mapping, d: Derived, i: nat, piece: Piece)
    requires Compiled(p, l) && i < |l.fields| && IsChecksumField(l, i) && Present(l, i, m) == Some(true)
    requires PieceOf(p, l, m, d, i) == Ok(piece)
    ensures piece.Put? && piece.bytes == Repeat(0, |piece.bytes|)
  {
    assert FieldWellFormed(p, l, i);
  }

  lemma ZeroPiece(piece: Piece, s: seq<byte>, spans: seq<Span>, i: nat, x: nat)
    requires i < |spans| && Fits(piece, s, spans, i) && piece.Put? && piece.bytes == Repeat(0, |piece.bytes|)
    requires spans[i].start <= x < spans[i].end
    ensures x < |s| && s[x] == 0
  {
    assert s[spans[i].start..spans[i].end][x - spans[i].start] == s[x];
  }

  /** Before checksum `k` is patched in, the frame is the finished one with checksums `k` and later blanked. */
  lemma FrameIsBlanked(p: Protocol, l: Layout, e: seq<byte>, spans: seq<Span>, frames: seq<seq<byte>>, k: nat)
    requires ChecksumsWellFormed(l) && |spans| == |l.fields| && Unfolds(p, l, e, spans, frames) && k <= |l.checksums|
    ensures frames[k] == Blanked(l, e, spans, k)
  {
    PatchedLength(p, l, spans, frames, k);
    PatchedLength(p, l, spans, frames, |l.checksums|);
    forall x | 0 <= x < |e|
      ensures frames[k][x] == Blanked(l, e, spans, k)[x]
    {
      if InChecksum(l, spans, k, x) {
        var j :| k <= j < |l.checksums| && InSpanOf(l, spans, j, x);
        LaterSpanUntouched(l, spans, k, j, x);
        PatchedBetween(p, l, spans, frames, 0, k, x);
      } else {
        PatchedBetween(p, l, spans, frames, k, |l.checksums|, x);
      }
    }
  }

  lemma LaterSpanUntouched(l: Layout, spans: seq<Span>, k: nat, j: nat, x: nat)
    requires ChecksumsWellFormed(l) && |spans| == |l.fields| && Ordered(spans) && k <= j < |l.checksums|
    requires InSpanOf(l, spans, j, x)
    ensures Untouched(l, spans, 0, k, x)
  {
    forall i | 0 <= i < k
      ensures !InSpanOf(l, spans, i, x)
    {
      assert ChecksumWellFormed(l, i) && ChecksumWellFormed(l, j) && ChecksumsDiffer(l, i, j);
      SpansApart(spans, l.checksums[j].fieldId, l.checksums[i].fieldId, x);
    }
  }

  /** A checksum of a re-encoding that gives the frame back is the number the frame holds. */
  lemma DigestForced(p: Protocol, l: Layout, frame: seq<byte>, base: nat, st: Decoding, frames: seq<seq<byte>>, k: nat)
    requires Compiled(p, l) && |st.spans| == |l.fields| && k < |l.checksums| && base + st.offset <= |frame|
    requires Unfolds(p, l, frame[base..base + st.offset], st.spans, frames)
    requires forall i | 0 <= i < |l.fields| :: FieldDecoded(p, l, frame, base, st.out, st.spans, i)
    requires l.checksums[k].fieldId < |l.fields| && l.fields[l.checksums[k].fieldId].name in st.out
    ensures DigestRepeats(p, l, frame, base, st, k)
  {
    var e := frame[base..base + st.offset];
    FrameIsBlanked(p, l, e, st.spans, frames, k);
    DigestKept(p, l, st.spans, frames, k);
    assert Patched(p, l, st.spans, k, frames[k], frames[k + 1]) && FullWidthAt(l, st.spans, |e|, k);
    var id := l.checksums[k].fieldId;
    var span := st.spans[id];
    assert FieldDecoded(p, l, frame, base, st.out, st.spans, id);
    CounterSize(p, l, frame, base, st.out, st.spans, id);
    SliceOfSlice(frame, base, base + st.offset, span.start, span.end);
  }

  /** The re-encoded layout, field by field, lies where the decoded one lay. */
  lemma ReencodedLaidOut(p: Protocol, l: Layout, frame: seq<byte>, base: nat, bounded: bool, m: Mapping, consumed: nat, e: seq<byte>)
    returns (d: Derived, spans: seq<Span>, frames: seq<seq<byte>>)
    requires Compiled(p, l) && DecodeLayout(p, l, frame, base, bounded) == Ok((m, consumed)) && EncodeLayout(p, l, m) == Ok(e)
    ensures |e| == consumed && |spans| == |l.fields| && Unfolds(p, l, e, spans, frames)
    ensures DecodeFields(p, l, frame, base, |l.fields|) == Ok(Decoding(m, consumed, spans))
    ensures DerivedMatches(l, m, d)
    ensures forall i | 0 <= i < |l.fields| :: FieldLaid(p, l, m, d, e, spans, i)
    decreases Depth(p, l), 3, 1
  {
    var n := |l.fields|;
    var st := FieldsOf(p, l, frame, base, bounded);
    spans := st.spans;
    DecodeFieldsFlat(p, l, frame, base, n);
    DeriveDecoded(p, l, frame, base, m, spans, n);
    d := Derive(p, l, m, n).value;
    var w := EncodeFields(p, l, m, d, n).value;
    EncodeFrom(p, l, m, d, w);
    var pieces := PiecesOfEncoding(p, l, m, d, n);
    SizesKept(p, l, frame, base, m, spans, d, pieces);
    SameSpans(p, l, frame, base, m, spans, pieces, n);
    assert pieces[..n] == pieces && spans[..n] == spans;
    ChecksumsWide(p, l, frame, base, bounded, st);
    AssembledFits(pieces);
    frames := PatchTrace(p, l, w, |l.checksums|);
    ChecksumsStartZero(p, l, frame, base, m, spans, d, pieces, w.bytes);
    forall i | 0 <= i < n
      ensures FieldLaid(p, l, m, d, e, spans, i)
    {
      PatchingKeepsPiece(p, l, spans, frames, pieces[i], i);
    }
  }

  lemma SizesKept(p: Protocol, l: Layout, frame: seq<byte>, base: nat, m: Mapping, spans: seq<Span>, d: Derived, pieces: seq<Piece>)
    requires Compiled(p, l) && |l.fields| == |spans| == |pieces| && DerivedMatches(l, m, d)
    requires forall i | 0 <= i < |l.fields| :: FieldDecoded(p, l, frame, base, m, spans, i)
    requires forall i | 0 <= i < |l.fields| :: PieceOf(p, l, m, d, i) == Ok(pieces[i])
    ensures forall i | 0 <= i < |l.fields| :: SameSize(l, m, spans, pieces[i], i)
    decreases Depth(p, l), 3, 0
  {
    forall i | 0 <= i < |l.fields|
      ensures SameSize(l, m, spans, pieces[i], i)
    {
      assert FieldDecoded(p, l, frame, base, m, spans, i) && PieceOf(p, l, m, d, i) == Ok(pieces[i]);
      if Present(l, i, m) == Some(true) {
        FieldSize(p, l, frame, base, m, spans, d, i, FieldBytes(p, l, m, d, i).value);
      }
    }
  }

  /** Every checksum field of a decoded layout was present, at its full width. */
  lemma ChecksumsWide(p: Protocol, l: Layout, frame: seq<byte>, base: nat, bounded: bool, st: Decoding)
    requires Compiled(p, l) && DecodeLayout(p, l, frame, base, bounded) == Ok((st.out, st.offset))
    requires DecodeFields(p, l, frame, base, |l.fields|) == Ok(st)
    ensures |st.spans| == |l.fields| && FullWidth(l, st.spans, st.offset)
    ensures forall k | 0 <= k < |l.checksums| :: l.checksums[k].fieldId < |l.fields| && l.fields[l.checksums[k].fieldId].name in st.out
  {
    var same := FieldsOf(p, l, frame, base, bounded);
    DecodeFieldsFlat(p, l, frame, base, |l.fields|);
    FlatIsOrdered(p, l, frame, base, st.out, st.spans, |l.fields|);
    assert st.spans[..|l.fields|] == st.spans;
    var limit := if l.isMessage && l.allowTrailing then |frame| - base else st.offset;
    forall k | 0 <= k < |l.checksums|
      ensures l.checksums[k].fieldId < |l.fields| && l.fields[l.checksums[k].fieldId].name in st.out
      ensures FullWidthAt(l, st.spans, st.offset, k)
    {
      EachVerified(p, l, frame, base, st, limit, |l.checksums|, k);
      VerifiedDigest(p, l, frame, base, st, limit, k);
      var id := l.checksums[k].fieldId;
      assert FieldDecoded(p, l, frame, base, st.out, st.spans, id);
      CounterSize(p, l, frame, base, st.out, st.spans, id);
      OrderedEnds(st.spans, id);
    }
  }

  // ----- What giving back forces -----

  /** If re-encoding gives the frame back, its gaps were zero and its checksums are the encoder's. */
  lemma GivenBackForces(p: Protocol, l: Layout, frame: seq<byte>, base: nat, bounded: bool, m: Mapping, consumed: nat)
    requires Compiled(p, l) && DecodeLayout(p, l, frame, base, bounded) == Ok((m, consumed))
    requires EncodeLayout(p, l, m) == Ok(frame[base..base + consumed])
    ensures ZeroPadded(p, l, frame, base) && DigestsRepeat(p, l, frame, base)
    decreases Depth(p, l), 4, 0
  {
    var e := frame[base..base + consumed];
    var d, spans, frames := ReencodedLaidOut(p, l, frame, base, bounded, m, consumed, e);
    var st := Decoding(m, consumed, spans);
    DecodeFieldsFlat(p, l, frame, base, |l.fields|);
    assert e[0..|e|] == e;
    forall i | 0 <= i < |l.fields|
      ensures FieldPadded(p, l, frame, base, st, i) && FieldRepeats(p, l, frame, base, st, i)
    {
      assert FieldLaid(p, l, m, d, e, spans, i) && FieldDecoded(p, l, frame, base, m, spans, i);
      FieldForced(p, l, frame, base, st, d, e, i);
    }
    ChecksumsWide(p, l, frame, base, bounded, st);
    forall k | 0 <= k < |l.checksums|
      ensures DigestRepeats(p, l, frame, base, st, k)
    {
      DigestForced(p, l, frame, base, st, frames, k);
    }
  }

  lemma FieldForced(p: Protocol, l: Layout, frame: seq<byte>, base: nat, st: Decoding, d: Derived, e: seq<byte>, i: nat)
    requires Compiled(p, l) && i < |l.fields| == |st.spans| && SameBytes(frame, base, e, 0, |e|)
    requires FieldLaid(p, l, st.out, d, e, st.spans, i) && FieldDecoded(p, l, frame, base, st.out, st.spans, i)
    requires DerivedMatches(l, st.out, d)
    ensures FieldPadded(p, l, frame, base, st, i) && FieldRepeats(p, l, frame, base, st, i)
    decreases Depth(p, l), 3, 0
  {
    assert FieldWellFormed(p, l, i);
    var f := l.fields[i];
    if Present(l, i, st.out) == Some(true) {
      GapReadBack(e, frame, base, Before(st.spans, i), st.spans[i].start);
      if f.kind.Nested? || f.kind.Collection? || f.kind.Variant? {
        StructsForced(p, l, frame, base, st, d, e, i);
      }
    }
  }

  lemma StructsForced(p: Protocol, l: Layout, frame: seq<byte>, base: nat, st: Decoding, d: Derived, e: seq<byte>, i: nat)
    requires Compiled(p, l) && i < |l.fields| == |st.spans| && SameBytes(frame, base, e, 0, |e|)
    requires FieldLaid(p, l, st.out, d, e, st.spans, i) && FieldDecoded(p, l, frame, base, st.out, st.spans, i)
    requires DerivedMatches(l, st.out, d)
    requires Present(l, i, st.out) == Some(true)
    requires l.fields[i].kind.Nested? || l.fields[i].kind.Collection? || l.fields[i].kind.Variant?
    ensures l.fields[i].name in st.out && ValuePadded(p, l, i, frame, base + st.spans[i].start, st.out)
    ensures ValueRepeats(p, l, i, frame, base + st.spans[i].start, st.out)
    decreases Depth(p, l), 2, 1
  {
    StructPlaced(p, l, frame, base, st, d, e, i);
    ValueForced(p, l, frame, base, st.spans[i].start, st.out, d, i, st.spans[i].end - st.spans[i].start);
  }

  /** The value of such a field encodes to the bytes the field was decoded from. */
  lemma StructPlaced(p: Protocol, l: Layout, frame: seq<byte>, base: nat, st: Decoding, d: Derived, e: seq<byte>, i: nat)
    requires Compiled(p, l) && i < |l.fields| == |st.spans| && SameBytes(frame, base, e, 0, |e|)
    requires FieldLaid(p, l, st.out, d, e, st.spans, i) && DerivedMatches(l, st.out, d)
    requires Present(l, i, st.out) == Some(true) && l.fields[i].name in st.out
    requires l.fields[i].kind.Nested? || l.fields[i].kind.Collection? || l.fields[i].kind.Variant?
    ensures st.spans[i].start <= st.spans[i].end && base + st.spans[i].end <= |frame|
    ensures EncodeValue(p, l, st.out, d, i, st.out[l.fields[i].name]) == Ok(frame[base + st.spans[i].start..base + st.spans[i].end])
  {
    var bytes := PlacedBytes(p, l, st.out, d, e, st.spans, frame, base, i);
    StructBytes(p, l, st.out, d, i);
    SameAsSlice(frame, base + st.spans[i].start, bytes);
  }

  lemma ValueForced(p: Protocol, l: Layout, frame: seq<byte>, base: nat, offset: nat, m: Mapping, d: Derived, i: nat, size: nat)
    requires Compiled(p, l) && i < |l.fields| && base + offset + size <= |frame|
    requires l.fields[i].kind.Nested? || l.fields[i].kind.Collection? || l.fields[i].kind.Variant?
    requires l.fields[i].name in m && DecodeValue(p, l, i, frame, base, offset, m) == Ok((m[l.fields[i].name], size))
    requires EncodeValue(p, l, m, d, i, m[l.fields[i].name]) == Ok(frame[base + offset..base + offset + size])
    ensures ValuePadded(p, l, i, frame, base + offset, m) && ValueRepeats(p, l, i, frame, base + offset, m)
    decreases Depth(p, l), 2, 0
  {
    assert FieldWellFormed(p, l, i);
    var f := l.fields[i];
    var v := m[f.name];
    if f.kind.Nested? {
      NestedIsCompiled(p, l, f, f.structId);
      GivenBackForces(p, p.structs[f.structId], frame, base + offset, false, v.fields, size);
    } else if f.kind.Collection? {
      NestedIsCompiled(p, l, f, f.structId);
      var count := if f.dynamicCount then Decoded(l, f.countFrom, m).value else f.fixedCount;
      ItemsForced(p, p.structs[f.structId], frame, base + offset, count, v.items, size);
    } else {
      VariantForced(p, l, frame, base, offset, m, d, i, size);
    }
  }

  lemma VariantForced(p: Protocol, l: Layout, frame: seq<byte>, base: nat, offset: nat, m: Mapping, d: Derived, i: nat, size: nat)
    requires Compiled(p, l) && i < |l.fields| && base + offset + size <= |frame| && l.fields[i].kind.Variant?
    requires l.fields[i].name in m && DecodeValue(p, l, i, frame, base, offset, m) == Ok((m[l.fields[i].name], size))
    requires EncodeValue(p, l, m, d, i, m[l.fields[i].name]) == Ok(frame[base + offset..base + offset + size])
    ensures ValuePadded(p, l, i, frame, base + offset, m) && ValueRepeats(p, l, i, frame, base + offset, m)
    decreases Depth(p, l), 1, 0
  {
    var k := VariantOf(p, l, frame, base, offset, m, d, i, size, frame[base + offset..base + offset + size]);
    GivenBackForces(p, p.structs[l.fields[i].cases[k].structId], frame, base + offset, false, m[l.fields[i].name].fields, size);
    VariantHolds(p, l, frame, base + offset, m, i, k);
  }

  /** The case a variant was decoded as is the one it is encoded as. */
  lemma VariantOf(p: Protocol, l: Layout, frame: seq<byte>, base: nat, offset: nat, m: Mapping, d: Derived, i: nat, size: nat, bytes: seq<byte>)
    returns (k: nat)
    requires Compiled(p, l) && i < |l.fields| && l.fields[i].kind.Variant?
    requires l.fields[i].name in m && DecodeValue(p, l, i, frame, base, offset, m) == Ok((m[l.fields[i].name], size))
    requires EncodeValue(p, l, m, d, i, m[l.fields[i].name]) == Ok(bytes)
    ensures VariantIs(p, l, m, i, k) && m[l.fields[i].name].Rec?
    ensures var e := p.structs[l.fields[i].cases[k].structId];
            && Compiled(p, e) && Depth(p, e) < Depth(p, l)
            && DecodeLayout(p, e, frame, base + offset, false) == Ok((m[l.fields[i].name].fields, size))
            && EncodeLayout(p, e, m[l.fields[i].name].fields) == Ok(bytes)
  {
    assert FieldWellFormed(p, l, i);
    var f := l.fields[i];
    k := FindCase(f.cases, Decoded(l, f.tagFrom, m).value, 0).value;
    assert CaseWellFormed(p, f, k);
    NestedIsCompiled(p, l, f, f.cases[k].structId);
  }

  /** The decoded tag of a variant selects case `k`. */
  ghost predicate VariantIs(p: Protocol, l: Layout, m: Mapping, i: nat, k: nat)
    requires i < |l.fields|
  {
    var f := l.fields[i];
    && f.tagFrom < |l.fields| && k < |f.cases| && f.cases[k].structId < |p.structs|
    && Decoded(l, f.tagFrom, m).Ok? && FindCase(f.cases, Decoded(l, f.tagFrom, m).value, 0) == Some(k)
  }

  lemma VariantHolds(p: Protocol, l: Layout, frame: seq<byte>, at: nat, m: Mapping, i: nat, k: nat)
    requires Compiled(p, l) && i < |l.fields| && l.fields[i].kind.Variant? && l.fields[i].name in m && VariantIs(p, l, m, i, k)
    requires Compiled(p, p.structs[l.fields[i].cases[k].structId])
    requires ZeroPadded(p, p.structs[l.fields[i].cases[k].structId], frame, at)
    requires DigestsRepeat(p, p.structs[l.fields[i].cases[k].structId], frame, at)
    ensures ValuePadded(p, l, i, frame, at, m) && ValueRepeats(p, l, i, frame, at, m)
  {
    assert FieldWellFormed(p, l, i);
  }


  /** The `n` elements decoded from `total` bytes re-encode to those bytes. */
  ghost predicate ItemsGivenBack(p: Protocol, e: Layout, frame: seq<byte>, at: nat, n: nat, items: seq<Value>, total: nat)
    requires Compiled(p, e)
  {
    && ItemsDecode(p, e, frame, at, n, items, total) && at + total <= |frame|
    && EncodeItems(p, e, items) == Ok(frame[at..at + total])
  }

  lemma ItemsForced(p: Protocol, e: Layout, frame: seq<byte>, at: nat, n: nat, items: seq<Value>, total: nat)
    requires Compiled(p, e) && ItemsGivenBack(p, e, frame, at, n, items, total)
    ensures ItemsPadded(p, e, frame, at, n) && ItemsRepeat(p, e, frame, at, n)
    decreases Depth(p, e), 6, n
  {
    if n > 0 {
      var before, size := LastForced(p, e, frame, at, n, items, total);
      ItemsForced(p, e, frame, at, n - 1, before, size);
      PaddedLast(p, e, frame, at, n, before, size);
    }
  }

  lemma PaddedLast(p: Protocol, e: Layout, frame: seq<byte>, at: nat, n: nat, before: seq<Value>, size: nat)
    requires Compiled(p, e) && n > 0 && DecodeItems(p, e, frame, at, n - 1) == Ok((before, size))
    requires ItemsPadded(p, e, frame, at, n - 1) && ZeroPadded(p, e, frame, at + size)
    requires ItemsRepeat(p, e, frame, at, n - 1) && DigestsRepeat(p, e, frame, at + size)
    ensures ItemsPadded(p, e, frame, at, n) && ItemsRepeat(p, e, frame, at, n)
  {
  }

  lemma LastForced(p: Protocol, e: Layout, frame: seq<byte>, at: nat, n: nat, items: seq<Value>, total: nat)
    returns (before: seq<Value>, size: nat)
    requires Compiled(p, e) && n > 0 && ItemsGivenBack(p, e, frame, at, n, items, total)
    ensures ItemsGivenBack(p, e, frame, at, n - 1, before, size)
    ensures ZeroPadded(p, e, frame, at + size) && DigestsRepeat(p, e, frame, at + size)
    decreases Depth(p, e), 5, 0
  {
    var inner, consumed;
    before, size, inner, consumed := LastDecoded(p, e, frame, at, n, items, total);
    LastGivenBack(p, e, frame, at, n, items, total, before, size, inner, consumed);
    GivenBackForces(p, e, frame, at + size, false, inner, consumed);
  }

  lemma LastGivenBack(p: Protocol, e: Layout, frame: seq<byte>, at: nat, n: nat, items: seq<Value>, total: nat,
                      before: seq<Value>, size: nat, inner: Mapping, consumed: nat)
    requires Compiled(p, e) && n > 0 && at + total <= |frame| && EncodeItems(p, e, items) == Ok(frame[at..at + total])
    requires ItemsDecode(p, e, frame, at, n - 1, before, size)
    requires items == before + [Rec(inner)] && total == size + consumed
    ensures ItemsGivenBack(p, e, frame, at, n - 1, before, size)
    ensures EncodeLayout(p, e, inner) == Ok(frame[at + size..at + total])
  {
    var first, rest := SplitEncoded(p, e, items, before, inner, frame[at..at + total]);
    FirstGivenBack(p, e, frame, at, n - 1, before, size, first, rest, total);
  }

  lemma FirstGivenBack(p: Protocol, e: Layout, frame: seq<byte>, at: nat, n: nat, items: seq<Value>, size: nat,
                       first: seq<byte>, rest: seq<byte>, total: nat)
    requires Compiled(p, e) && ItemsDecode(p, e, frame, at, n, items, size) && EncodeItems(p, e, items) == Ok(first)
    requires at + total <= |frame| && size <= total && frame[at..at + total] == first + rest
    ensures ItemsGivenBack(p, e, frame, at, n, items, size) && rest == frame[at + size..at + total]
  {
    DecodeAndEncode(p, e, frame, at, n, items, size, first);
    ItemsSize(p, e, frame, at, n, items, size, first);
    SplitSlice(frame, at, at + total, first, rest);
    BackFrom(p, e, frame, at, n, items, size, first);
  }

  lemma DecodeAndEncode(p: Protocol, e: Layout, frame: seq<byte>, at: nat, n: nat, items: seq<Value>, total: nat, bytes: seq<byte>)
    requires Compiled(p, e) && ItemsDecode(p, e, frame, at, n, items, total) && EncodeItems(p, e, items) == Ok(bytes)
    ensures ItemsEncode(p, e, frame, at, n, items, total, bytes)
  {
  }

  lemma BackFrom(p: Protocol, e: Layout, frame: seq<byte>, at: nat, n: nat, items: seq<Value>, total: nat, bytes: seq<byte>)
    requires Compiled(p, e) && ItemsEncode(p, e, frame, at, n, items, total, bytes)
    requires at + total <= |frame| && bytes == frame[at..at + total]
    ensures ItemsGivenBack(p, e, frame, at, n, items, total)
  {
  }

  // ----- Settled layouts -----

  /** Where no checksum covers itself or a later one, every verified checksum is the one the encoder computes. */
  lemma SettledRepeats(p: Protocol, l: Layout, frame: seq<byte>, base: nat, bounded: bool, m: Mapping, consumed: nat)
    requires Compiled(p, l) && AllSettled(p, l) && DecodeLayout(p, l, frame, base, bounded) == Ok((m, consumed))
    requires l.isMessage && l.allowTrailing ==> base + consumed == |frame|
    ensures DigestsRepeat(p, l, frame, base)
    decreases Depth(p, l), 4, 0
  {
    var n := |l.fields|;
    var st := FieldsOf(p, l, frame, base, bounded);
    DecodeFieldsFlat(p, l, frame, base, n);
    FlatIsOrdered(p, l, frame, base, st.out, st.spans, n);
    assert st.spans[..n] == st.spans;
    forall k | 0 <= k < |l.checksums|
      ensures DigestRepeats(p, l, frame, base, st, k)
    {
      SettledDigest(p, l, frame, base, st, k);
    }
    forall i | 0 <= i < n
      ensures FieldRepeats(p, l, frame, base, st, i)
    {
      assert FieldDecoded(p, l, frame, base, st.out, st.spans, i);
      SettledField(p, l, frame, base, st, i);
    }
  }

  lemma SettledDigest(p: Protocol, l: Layout, frame: seq<byte>, base: nat, st: Decoding, k: nat)
    requires Compiled(p, l) && Settled(l) && |st.spans| == |l.fields| && Ordered(st.spans) && k < |l.checksums|
    requires st.offset == Before(st.spans, |st.spans|) && base + st.offset <= |frame|
    requires VerifyChecksums(p, l, frame, base, st, st.offset, |l.checksums|).Ok?
    ensures DigestRepeats(p, l, frame, base, st, k)
  {
    EachVerified(p, l, frame, base, st, st.offset, |l.checksums|, k);
    VerifiedDigest(p, l, frame, base, st, st.offset, k);
    BlankedRange(l, frame[base..base + st.offset], st.spans, k);
  }

  lemma SettledField(p: Protocol, l: Layout, frame: seq<byte>, base: nat, st: Decoding, i: nat)
    requires Compiled(p, l) && AllSettled(p, l) && i < |l.fields| == |st.spans|
    requires FieldDecoded(p, l, frame, base, st.out, st.spans, i)
    ensures FieldRepeats(p, l, frame, base, st, i)
    decreases Depth(p, l), 3, 1
  {
    if l.fields[i].name in st.out {
      SettledValue(p, l, frame, base, st.spans[i].start, st.out, i, st.spans[i].end - st.spans[i].start);
    }
  }

  lemma SettledValue(p: Protocol, l: Layout, frame: seq<byte>, base: nat, offset: nat, m: Mapping, i: nat, size: nat)
    requires Compiled(p, l) && AllSettled(p, l) && i < |l.fields|
    requires l.fields[i].name in m && DecodeValue(p, l, i, frame, base, offset, m) == Ok((m[l.fields[i].name], size))
    ensures ValueRepeats(p, l, i, frame, base + offset, m)
    decreases Depth(p, l), 3, 0
  {
    assert FieldWellFormed(p, l, i);
    var f := l.fields[i];
    var v := m[f.name];
    if f.kind.Nested? {
      NestedIsCompiled(p, l, f, f.structId);
      SettledRepeats(p, p.structs[f.structId], frame, base + offset, false, v.fields, size);
    } else if f.kind.Collection? {
      NestedIsCompiled(p, l, f, f.structId);
      SettledItems(p, p.structs[f.structId], frame, base + offset, |v.items|, v.items, size);
    } else if f.kind.Variant? {
      var k := FindCase(f.cases, Decoded(l, f.tagFrom, m).value, 0).value;
      assert CaseWellFormed(p, f, k);
      NestedIsCompiled(p, l, f, f.cases[k].structId);
      SettledRepeats(p, p.structs[f.cases[k].structId], frame, base + offset, false, v.fields, size);
    }
  }

  lemma SettledItems(p: Protocol, e: Layout, frame: seq<byte>, at: nat, n: nat, items: seq<Value>, total: nat)
    requires Compiled(p, e) && AllSettled(p, e) && !e.isMessage && ItemsDecode(p, e, frame, at, n, items, total)
    ensures ItemsRepeat(p, e, frame, at, n)
    decreases Depth(p, e), 6, n
  {
    if n > 0 {
      var before, size := SettledLast(p, e, frame, at, n, items, total);
      SettledItems(p, e, frame, at, n - 1, before, size);
      RepeatsLast(p, e, frame, at, n, before, size);
    }
  }

  lemma SettledLast(p: Protocol, e: Layout, frame: seq<byte>, at: nat, n: nat, items: seq<Value>, total: nat)
    returns (before: seq<Value>, size: nat)
    requires Compiled(p, e) && AllSettled(p, e) && !e.isMessage && n > 0 && ItemsDecode(p, e, frame, at, n, items, total)
    ensures ItemsDecode(p, e, frame, at, n - 1, before, size) && DigestsRepeat(p, e, frame, at + size)
    decreases Depth(p, e), 5, 0
  {
    var inner, consumed;
    before, size, inner, consumed := LastDecoded(p, e, frame, at, n, items, total);
    SettledRepeats(p, e, frame, at + size, false, inner, consumed);
  }

  lemma RepeatsLast(p: Protocol, e: Layout, frame: seq<byte>, at: nat, n: nat, before: seq<Value>, size: nat)
    requires Compiled(p, e) && n > 0 && ItemsDecode(p, e, frame, at, n - 1, before, size)
    requires ItemsRepeat(p, e, frame, at, n - 1) && DigestsRepeat(p, e, frame, at + size)
    ensures ItemsRepeat(p, e, frame, at, n)
  {
  }

  // ----- The theorem -----

  /** Of the frames that decode, exactly those are given back by re-encoding whose gaps hold zero bytes and
      whose checksums do not change when they are computed with their own and all later fields zeroed. */
  lemma ReencodeExactly(p: Protocol, l: Layout, frame: seq<byte>, base: nat, bounded: bool, m: Mapping, consumed: nat)
    requires Compiled(p, l) && DecodeLayout(p, l, frame, base, bounded) == Ok((m, consumed))
    ensures base + consumed <= |frame|
    ensures EncodeLayout(p, l, m) == Ok(frame[base..base + consumed])
            <==> ZeroPadded(p, l, frame, base) && DigestsRepeat(p, l, frame, base)
  {
    if ZeroPadded(p, l, frame, base) && DigestsRepeat(p, l, frame, base) {
      ReencodeLayout(p, l, frame, base, bounded, m, consumed);
    } else if EncodeLayout(p, l, m) == Ok(frame[base..base + consumed]) {
      GivenBackForces(p, l, frame, base, bounded, m, consumed);
    }
  }

  /** Where no checksum covers itself or a later one and no bytes follow, zero gaps are all it takes. */
  lemma SettledReencodeExactly(p: Protocol, l: Layout, frame: seq<byte>, base: nat, bounded: bool, m: Mapping, consumed: nat)
    requires Compiled(p, l) && AllSettled(p, l) && DecodeLayout(p, l, frame, base, bounded) == Ok((m, consumed))
    requires l.isMessage && l.allowTrailing ==> base + consumed == |frame|
    ensures base + consumed <= |frame|
    ensures EncodeLayout(p, l, m) == Ok(frame[base..base + consumed]) <==> ZeroPadded(p, l, frame, base)
  {
    SettledRepeats(p, l, frame, base, bounded, m, consumed);
    ReencodeExactly(p, l, frame, base, bounded, m, consumed);
  }

  /** Encoding is stable where checksums are settled: the completed mapping encodes to the same bytes. */
  lemma EncodeCompleted(p: Protocol, l: Layout, m: Mapping, e: seq<byte>) returns (out: Mapping)
    requires Compiled(p, l) && AllSettled(p, l) && Admissible(p, l, m) && EncodeLayout(p, l, m) == Ok(e)
    requires l.isMessage ==> PrefixSound(l)
    ensures Completes(p, l, m, out) && DecodeLayout(p, l, e, 0, true) == Ok((out, |e|))
    ensures EncodeLayout(p, l, out) == Ok(e)
  {
    assert e[0..|e|] == e;
    out := DecodeEncoded(p, l, m, e, e, 0, true);
    SettledRepeats(p, l, e, 0, true, out, |e|);
    ReencodeLayout(p, l, e, 0, true, out, |e|);
  }
}
