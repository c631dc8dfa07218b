/** Decoding what was encoded gives the mapping back, completed. */
module CodecDecodeEncoded {
  import opened Prelude
  import opened Bytes
  import opened Metadata
  import opened Codec
  import opened CodecFacts
  import opened CodecLocality
  import opened CodecReencode
  import opened CodecAdmissible
  import opened SchemaLayouts

  // ----- The encoder's output, piece by piece -----

  lemma {:induction false} PiecesOfEncoding(p: Protocol, l: Layout, m: Mapping, d: Derived, n: nat) returns (pieces: seq<Piece>)
    requires Compiled(p, l) && n <= |l.fields| && EncodeFields(p, l, m, d, n).Ok?
    ensures |pieces| == n && EncodeFields(p, l, m, d, n).value == Assemble(pieces)
    ensures forall i | 0 <= i < n :: PieceOf(p, l, m, d, i) == Ok(pieces[i])
    decreases n
  {
    if n == 0 {
      pieces := [];
    } else {
      var before := PiecesOfEncoding(p, l, m, d, n - 1);
      var last := PieceOf(p, l, m, d, n - 1).value;
      pieces := before + [last];
      assert pieces[..n - 1] == before;
    }
  }

  lemma {:induction false} AssembledFits(pieces: seq<Piece>)
    ensures var w := Assemble(pieces);
            && Before(w.spans, |pieces|) == |w.bytes| && Ordered(w.spans)
            && forall i | 0 <= i < |pieces| :: Fits(pieces[i], w.bytes, w.spans, i)
    decreases |pieces|
  {
    if pieces != [] {
      var n := |pieces| - 1;
      AssembledFits(pieces[..n]);
      AppendFits(Assemble(pieces[..n]), pieces[n]);
      var prev, w := Assemble(pieces[..n]), Assemble(pieces);
      forall i | 0 <= i < |pieces|
        ensures Fits(pieces[i], w.bytes, w.spans, i)
      {
        if i < n {
          assert Fits(pieces[..n][i], prev.bytes, prev.spans, i);
          FitsLonger(pieces[i], prev, w, i);
        }
      }
    }
  }

  lemma AppendFits(w: Written, piece: Piece)
    requires Before(w.spans, |w.spans|) == |w.bytes| && Ordered(w.spans)
    ensures var w' := Append(w, piece);
            && |w.bytes| <= |w'.bytes| && w'.bytes[..|w.bytes|] == w.bytes && w'.spans[..|w.spans|] == w.spans
            && Before(w'.spans, |w'.spans|) == |w'.bytes| && Ordered(w'.spans)
            && Fits(piece, w'.bytes, w'.spans, |w.spans|)
  {
    var w' := Append(w, piece);
    assert w'.spans[..|w.spans|] == w.spans && w'.spans[..|w.spans| + 1] == w'.spans;
    ExtendOrdered(w'.spans, |w.spans|);
    if piece.Put? {
      AppendedBytes(w.bytes, AlignUp(|w.bytes|, piece.alignment) - |w.bytes|, piece.bytes);
    }
  }

  lemma AppendedBytes(before: seq<byte>, gap: nat, bytes: seq<byte>)
    ensures var all := before + Repeat(0, gap) + bytes;
            && all[..|before|] == before && all[|before| + gap..] == bytes
            && all[|before| + gap..|before| + gap + |bytes|] == bytes
            && ZeroGap(all, |before|, |before| + gap)
  {
  }

  lemma FitsLonger(piece: Piece, w: Written, w': Written, i: nat)
    requires i < |w.spans| <= |w'.spans| && |w.bytes| <= |w'.bytes|
    requires w'.bytes[..|w.bytes|] == w.bytes && w'.spans[..|w.spans|] == w.spans
    requires Before(w.spans, |w.spans|) == |w.bytes| && Ordered(w.spans)
    requires Fits(piece, w.bytes, w.spans, i)
    ensures Fits(piece, w'.bytes, w'.spans, i)
  {
    OrderedEnds(w.spans, i);
    assert w'.spans[i] == w.spans[i] && Before(w'.spans, i) == Before(w.spans, i);
    assert forall x | 0 <= x < |w.bytes| :: w'.bytes[x] == w.bytes[x];
  }

  // ----- Patching -----

  /** The bytes of checksum `k`'s field are the registry's digest of its range. */
  ghost predicate ChecksumIn(p: Protocol, l: Layout, e: seq<byte>, spans: seq<Span>, k: nat)
    requires ChecksumsWellFormed(l) && |spans| == |l.fields| && k < |l.checksums|
  {
    assert ChecksumWellFormed(l, k);
    var c := l.checksums[k];
    var from, to := AnchorOffset(c.from, spans, |e|), AnchorOffset(c.to, spans, |e|);
    var span := spans[c.fieldId];
    && from <= to <= |e| && span.start <= span.end <= |e|
    && p.registry(c.algorithm, e[from..to]) == Some(FromBytes(e[span.start..span.end], l.fields[c.fieldId].order))
  }

  /** Every checksum field has its full width. */
  ghost predicate FullWidth(l: Layout, spans: seq<Span>, size: nat)
    requires ChecksumsWellFormed(l) && |spans| == |l.fields|
  {
    forall k | 0 <= k < |l.checksums| :: FullWidthAt(l, spans, size, k)
  }

  ghost predicate FullWidthAt(l: Layout, spans: seq<Span>, size: nat, k: nat)
    requires ChecksumsWellFormed(l) && |spans| == |l.fields| && k < |l.checksums|
  {
    assert ChecksumWellFormed(l, k);
    var span := spans[l.checksums[k].fieldId];
    span.end == span.start + l.fields[l.checksums[k].fieldId].width && span.end <= size
  }

  /** `t` is `s` with checksum `k` computed over it and written into its field. */
  ghost predicate Patched(p: Protocol, l: Layout, spans: seq<Span>, k: nat, s: seq<byte>, t: seq<byte>)
    requires ChecksumsWellFormed(l) && |spans| == |l.fields| && k < |l.checksums|
  {
    assert ChecksumWellFormed(l, k);
    var c := l.checksums[k];
    var span := spans[c.fieldId];
    && |t| == |s| && span.start <= span.end <= |s|
    && (forall x | 0 <= x < |s| && !InSpanOf(l, spans, k, x) :: t[x] == s[x])
    && p.registry(c.algorithm, Slice(s, AnchorOffset(c.from, spans, |s|), AnchorOffset(c.to, spans, |s|)))
       == Some(FromBytes(t[span.start..span.end], l.fields[c.fieldId].order))
  }

  lemma PatchOneMeans(p: Protocol, l: Layout, k: nat, spans: seq<Span>, s: seq<byte>, t: seq<byte>)
    requires ChecksumsWellFormed(l) && |spans| == |l.fields| && k < |l.checksums| && FullWidthAt(l, spans, |s|, k)
    requires ChecksumWellFormed(l, k) && PatchOne(p, l, k, spans, s) == Ok(t)
    ensures Patched(p, l, spans, k, s, t)
  {
    var c := l.checksums[k];
    var f := l.fields[c.fieldId];
    var span := spans[c.fieldId];
    var digest := p.registry(c.algorithm, Slice(s, AnchorOffset(c.from, spans, |s|), AnchorOffset(c.to, spans, |s|))).value;
    ReadWritten(digest, f.width, f.order);
    PatchIn(s, span.start, ToBytes(digest, f.width, f.order));
  }

  lemma PatchIn(s: seq<byte>, start: nat, new_: seq<byte>)
    requires start + |new_| <= |s|
    ensures var t := Patch(s, start, new_);
            && |t| == |s| && t[start..start + |new_|] == new_
            && forall x | 0 <= x < |s| && !(start <= x < start + |new_|) :: t[x] == s[x]
  {
  }

  /** The frame before, between and after the patches. */
  ghost predicate Trace(p: Protocol, l: Layout, spans: seq<Span>, frames: seq<seq<byte>>)
    requires ChecksumsWellFormed(l) && |spans| == |l.fields| && |frames| <= |l.checksums| + 1
  {
    forall k | 0 <= k < |frames| - 1 :: Patched(p, l, spans, k, frames[k], frames[k + 1])
  }

  lemma {:induction false} PatchTrace(p: Protocol, l: Layout, w: Written, n: nat) returns (frames: seq<seq<byte>>)
    requires ChecksumsWellFormed(l) && |w.spans| == |l.fields| && n <= |l.checksums| && FullWidth(l, w.spans, |w.bytes|)
    requires PatchChecksums(p, l, w, n).Ok?
    ensures |frames| == n + 1 && frames[0] == w.bytes && PatchChecksums(p, l, w, n) == Ok(frames[n])
    ensures |frames[n]| == |w.bytes| && Trace(p, l, w.spans, frames)
    decreases n
  {
    if n == 0 {
      frames := [w.bytes];
    } else {
      var before := PatchTrace(p, l, w, n - 1);
      assert ChecksumWellFormed(l, n - 1) && FullWidthAt(l, w.spans, |w.bytes|, n - 1);
      var t := PatchChecksums(p, l, w, n).value;
      PatchOneMeans(p, l, n - 1, w.spans, before[n - 1], t);
      frames := before + [t];
      TraceGrows(p, l, w.spans, before, t);
    }
  }

  lemma TraceGrows(p: Protocol, l: Layout, spans: seq<Span>, frames: seq<seq<byte>>, t: seq<byte>)
    requires ChecksumsWellFormed(l) && |spans| == |l.fields| && 0 < |frames| <= |l.checksums|
    requires Trace(p, l, spans, frames) && Patched(p, l, spans, |frames| - 1, frames[|frames| - 1], t)
    ensures Trace(p, l, spans, frames + [t])
  {
    var longer := frames + [t];
    forall k | 0 <= k < |longer| - 1
      ensures Patched(p, l, spans, k, longer[k], longer[k + 1])
    {
      if k < |frames| - 1 {
        assert Patched(p, l, spans, k, frames[k], frames[k + 1]);
      }
    }
  }

  /** Byte `x` lies in none of the fields of checksums `k` to `n`. */
  ghost predicate Untouched(l: Layout, spans: seq<Span>, k: nat, n: nat, x: nat)
    requires ChecksumsWellFormed(l) && |spans| == |l.fields| && n <= |l.checksums|
  {
    forall j | k <= j < n :: !InSpanOf(l, spans, j, x)
  }

  /** Patches `k` to `n` leave a byte outside their fields alone. */
  lemma {:induction false} PatchedBetween(p: Protocol, l: Layout, spans: seq<Span>, frames: seq<seq<byte>>, k: nat, n: nat, x: nat)
    requires ChecksumsWellFormed(l) && |spans| == |l.fields| && k <= n < |frames| <= |l.checksums| + 1
    requires Trace(p, l, spans, frames) && Untouched(l, spans, k, n, x) && x < |frames[k]|
    ensures |frames[n]| == |frames[k]| && frames[n][x] == frames[k][x]
    decreases n
  {
    if k < n {
      PatchedBetween(p, l, spans, frames, k, n - 1, x);
      assert Patched(p, l, spans, n - 1, frames[n - 1], frames[n]);
      assert !InSpanOf(l, spans, n - 1, x);
    }
  }

  lemma {:induction false} PatchedLength(p: Protocol, l: Layout, spans: seq<Span>, frames: seq<seq<byte>>, n: nat)
    requires ChecksumsWellFormed(l) && |spans| == |l.fields| && n < |frames| <= |l.checksums| + 1
    requires Trace(p, l, spans, frames)
    ensures |frames[n]| == |frames[0]|
    decreases n
  {
    if n > 0 {
      PatchedLength(p, l, spans, frames, n - 1);
      assert Patched(p, l, spans, n - 1, frames[n - 1], frames[n]);
    }
  }

  lemma AnchorsOrdered(l: Layout, c: Checksum, spans: seq<Span>, total: nat)
    requires AnchorWellFormed(l, c.from) && AnchorWellFormed(l, c.to)
    requires Ordered(spans) && |spans| == |l.fields| && total == Before(spans, |spans|)
    requires AnchorRank(c.from, |l.fields|) <= AnchorRank(c.to, |l.fields|)
    ensures AnchorOffset(c.from, spans, total) <= AnchorOffset(c.to, spans, total) <= total
  {
    if c.from.fieldId < |spans| {
      OrderedEnds(spans, c.from.fieldId);
    }
    if c.to.fieldId < |spans| {
      OrderedEnds(spans, c.to.fieldId);
    }
    if c.from.fieldId < |spans| && c.to.fieldId < |spans| && c.from.fieldId < c.to.fieldId {
      assert Precedes(spans, c.from.fieldId, c.to.fieldId);
    }
  }

  /** Bytes that agree position by position read as the same slice. */
  lemma SameSlice(s: seq<byte>, e: seq<byte>, from: nat, to: nat)
    requires |s| == |e| && from <= to <= |e|
    requires forall x | from <= x < to :: e[x] == s[x]
    ensures e[from..to] == Slice(s, from, to) == s[from..to]
  {
  }

  /** The range of checksum `k` reads the same in the finished frame as when it was hashed. */
  lemma RangeKept(p: Protocol, l: Layout, spans: seq<Span>, frames: seq<seq<byte>>, k: nat)
    requires ChecksumsWellFormed(l) && ChecksumsReadable(l) && |spans| == |l.fields| && k < |l.checksums|
    requires |frames| == |l.checksums| + 1 && Trace(p, l, spans, frames)
    requires Ordered(spans) && Before(spans, |spans|) == |frames[0]|
    ensures ChecksumWellFormed(l, k)
    ensures var c := l.checksums[k];
            var s, e := frames[k], frames[|l.checksums|];
            var from, to := AnchorOffset(c.from, spans, |e|), AnchorOffset(c.to, spans, |e|);
            |s| == |e| && from <= to <= |e| && e[from..to] == Slice(s, from, to)
  {
    PatchedLength(p, l, spans, frames, k);
    PatchedLength(p, l, spans, frames, |l.checksums|);
    var s, e := frames[k], frames[|l.checksums|];
    RangeUntouched(l, spans, |e|, k);
    var c := l.checksums[k];
    var from, to := AnchorOffset(c.from, spans, |e|), AnchorOffset(c.to, spans, |e|);
    forall x | from <= x < to
      ensures e[x] == s[x]
    {
      PatchedBetween(p, l, spans, frames, k, |l.checksums|, x);
    }
    SameSlice(s, e, from, to);
  }

  lemma OwnSpanUntouched(l: Layout, spans: seq<Span>, k: nat, x: nat)
    requires ChecksumsWellFormed(l) && |spans| == |l.fields| && Ordered(spans) && k < |l.checksums|
    requires InSpanOf(l, spans, k, x)
    ensures Untouched(l, spans, k + 1, |l.checksums|, x)
  {
    UnblankByte(l, spans, k, x);
  }

  /** The field of checksum `k` keeps the digest written to it. */
  lemma DigestKept(p: Protocol, l: Layout, spans: seq<Span>, frames: seq<seq<byte>>, k: nat)
    requires ChecksumsWellFormed(l) && |spans| == |l.fields| && k < |l.checksums|
    requires |frames| == |l.checksums| + 1 && Trace(p, l, spans, frames) && Ordered(spans)
    ensures ChecksumWellFormed(l, k)
    ensures var span := spans[l.checksums[k].fieldId];
            var t, e := frames[k + 1], frames[|l.checksums|];
            |t| == |e| && span.start <= span.end <= |e| && e[span.start..span.end] == t[span.start..span.end]
  {
    PatchedLength(p, l, spans, frames, k + 1);
    PatchedLength(p, l, spans, frames, |l.checksums|);
    assert ChecksumWellFormed(l, k) && Patched(p, l, spans, k, frames[k], frames[k + 1]);
    var span := spans[l.checksums[k].fieldId];
    var t, e := frames[k + 1], frames[|l.checksums|];
    forall x | span.start <= x < span.end
      ensures e[x] == t[x]
    {
      assert InSpanOf(l, spans, k, x);
      OwnSpanUntouched(l, spans, k, x);
      PatchedBetween(p, l, spans, frames, k + 1, |l.checksums|, x);
    }
    SameSlice(t, e, span.start, span.end);
  }

  /** In the finished frame every checksum is right. */
  lemma FinishedChecksum(p: Protocol, l: Layout, spans: seq<Span>, frames: seq<seq<byte>>, k: nat)
    requires ChecksumsWellFormed(l) && ChecksumsReadable(l) && |spans| == |l.fields| && k < |l.checksums|
    requires |frames| == |l.checksums| + 1 && Trace(p, l, spans, frames)
    requires Ordered(spans) && Before(spans, |spans|) == |frames[0]|
    ensures ChecksumIn(p, l, frames[|l.checksums|], spans, k)
  {
    RangeKept(p, l, spans, frames, k);
    DigestKept(p, l, spans, frames, k);
    assert Patched(p, l, spans, k, frames[k], frames[k + 1]);
  }

  /** The range of checksum `k` avoids its own field and those of later checksums. */
  lemma RangeUntouched(l: Layout, spans: seq<Span>, total: nat, k: nat)
    requires ChecksumsWellFormed(l) && ChecksumsReadable(l) && |spans| == |l.fields| && k < |l.checksums|
    requires Ordered(spans) && total == Before(spans, |spans|)
    ensures ChecksumWellFormed(l, k)
    ensures var c := l.checksums[k];
            var from, to := AnchorOffset(c.from, spans, total), AnchorOffset(c.to, spans, total);
            from <= to <= total && forall x | from <= x < to :: Untouched(l, spans, k, |l.checksums|, x)
  {
    assert ChecksumWellFormed(l, k) && AnchorsInOrder(l, k);
    var c := l.checksums[k];
    AnchorsOrdered(l, c, spans, total);
    var from, to := AnchorOffset(c.from, spans, total), AnchorOffset(c.to, spans, total);
    forall x, j | from <= x < to && k <= j < |l.checksums|
      ensures !InSpanOf(l, spans, j, x)
    {
      assert ChecksumWellFormed(l, j) && Spares(l, k, j);
      OutsideRange(l, c, spans, total, l.checksums[j].fieldId);
    }
  }

  // ----- The pieces in the finished frame -----

  /** Piece `i` lies in the finished frame: checksum fields by size, everything else byte for byte. */
  ghost predicate Placed(l: Layout, piece: Piece, e: seq<byte>, spans: seq<Span>, i: nat)
    requires i < |spans|
  {
    match piece
    case Skip => spans[i] == Span(Before(spans, i), Before(spans, i))
    case Put(alignment, bytes) =>
      && spans[i].start == AlignUp(Before(spans, i), alignment)
      && spans[i].end == spans[i].start + |bytes| <= |e|
      && (!IsChecksumField(l, i) ==> e[spans[i].start..spans[i].end] == bytes)
      && ZeroGap(e, Before(spans, i), spans[i].start)
  }

  lemma GapUntouched(l: Layout, spans: seq<Span>, i: nat, x: nat)
    requires ChecksumsWellFormed(l) && |spans| == |l.fields| && Ordered(spans) && i < |spans|
    requires Before(spans, i) <= x < spans[i].start
    ensures Untouched(l, spans, 0, |l.checksums|, x)
  {
    forall j | 0 <= j < |l.checksums|
      ensures !InSpanOf(l, spans, j, x)
    {
      assert ChecksumWellFormed(l, j);
      var id := l.checksums[j].fieldId;
      if id < i {
        assert Precedes(spans, id, i - 1) && Precedes(spans, i - 1, i - 1);
      } else {
        assert Precedes(spans, i, id) && Precedes(spans, i, i);
      }
    }
  }

  lemma FieldUntouched(l: Layout, spans: seq<Span>, i: nat, x: nat)
    requires ChecksumsWellFormed(l) && |spans| == |l.fields| && Ordered(spans) && i < |spans|
    requires !IsChecksumField(l, i) && spans[i].start <= x < spans[i].end
    ensures Untouched(l, spans, 0, |l.checksums|, x)
  {
    forall j | 0 <= j < |l.checksums|
      ensures !InSpanOf(l, spans, j, x)
    {
      assert ChecksumWellFormed(l, j) && l.checksums[j] in l.checksums;
      SpansApart(spans, i, l.checksums[j].fieldId, x);
    }
  }

  /** Patching checksums leaves every piece in place. */
  lemma PatchingKeepsPiece(p: Protocol, l: Layout, spans: seq<Span>, frames: seq<seq<byte>>, piece: Piece, i: nat)
    requires ChecksumsWellFormed(l) && |spans| == |l.fields| && i < |l.fields| && Ordered(spans)
    requires |frames| == |l.checksums| + 1 && Trace(p, l, spans, frames)
    requires Fits(piece, frames[0], spans, i)
    ensures Placed(l, piece, frames[|l.checksums|], spans, i)
  {
    PatchedLength(p, l, spans, frames, |l.checksums|);
    var b, e := frames[0], frames[|l.checksums|];
    if piece.Put? {
      forall x | Before(spans, i) <= x < spans[i].start && x < |e|
        ensures e[x] == 0
      {
        GapUntouched(l, spans, i, x);
        PatchedBetween(p, l, spans, frames, 0, |l.checksums|, x);
      }
      if !IsChecksumField(l, i) {
        forall x | spans[i].start <= x < spans[i].end
          ensures e[x] == b[x]
        {
          FieldUntouched(l, spans, i, x);
          PatchedBetween(p, l, spans, frames, 0, |l.checksums|, x);
        }
        SameSlice(b, e, spans[i].start, spans[i].end);
      }
    }
  }

  /** A present checksum field is written at its full width. */
  lemma ChecksumPiece(p: Protocol, l: Layout, m: Mapping, d: Derived, piece: Piece, b: seq<byte>, spans: seq<Span>, k: nat)
    requires Compiled(p, l) && |spans| == |l.fields| && k < |l.checksums| && ChecksumWellFormed(l, k)
    requires AdmissibleField(p, l, m, d, l.checksums[k].fieldId)
    requires PieceOf(p, l, m, d, l.checksums[k].fieldId) == Ok(piece) && Fits(piece, b, spans, l.checksums[k].fieldId)
    ensures FullWidthAt(l, spans, |b|, k)
  {
    var i := l.checksums[k].fieldId;
    assert l.checksums[k] in l.checksums;
    assert FieldWellFormed(p, l, i);
  }

  /** Field `i` encodes to a piece that lies in the finished frame. */
  ghost predicate FieldLaid(p: Protocol, l: Layout, m: Mapping, d: Derived, e: seq<byte>, spans: seq<Span>, i: nat)
    requires Compiled(p, l) && i < |l.fields| == |spans|
  {
    PieceOf(p, l, m, d, i).Ok? && Placed(l, PieceOf(p, l, m, d, i).value, e, spans, i)
  }

  /** What a successful encoding of an admissible mapping looks like, field by field. */
  lemma EncodingLaidOut(p: Protocol, l: Layout, m: Mapping, e: seq<byte>)
    returns (d: Derived, spans: seq<Span>)
    requires Compiled(p, l) && Admissible(p, l, m) && EncodeLayout(p, l, m) == Ok(e)
    ensures Derive(p, l, m, |l.fields|) == Ok(d) && |spans| == |l.fields|
    ensures Before(spans, |spans|) == |e|
    ensures forall i | 0 <= i < |l.fields| :: FieldLaid(p, l, m, d, e, spans, i)
    ensures forall k | 0 <= k < |l.checksums| :: ChecksumIn(p, l, e, spans, k)
  {
    var n := |l.fields|;
    d := Derive(p, l, m, n).value;
    var w := EncodeFields(p, l, m, d, n).value;
    spans := w.spans;
    EncodeFrom(p, l, m, d, w);
    var pieces := PiecesOfEncoding(p, l, m, d, n);
    AssembledFits(pieces);
    forall k | 0 <= k < |l.checksums|
      ensures FullWidthAt(l, spans, |w.bytes|, k)
    {
      assert ChecksumWellFormed(l, k);
      var id := l.checksums[k].fieldId;
      assert AdmissibleField(p, l, m, d, id);
      ChecksumPiece(p, l, m, d, pieces[id], w.bytes, spans, k);
    }
    var frames := PatchTrace(p, l, w, |l.checksums|);
    forall i | 0 <= i < n
      ensures FieldLaid(p, l, m, d, e, spans, i)
    {
      PatchingKeepsPiece(p, l, spans, frames, pieces[i], i);
    }
    forall k | 0 <= k < |l.checksums|
      ensures ChecksumIn(p, l, e, spans, k)
    {
      FinishedChecksum(p, l, spans, frames, k);
    }
  }

  // ----- Counters and gates read back -----

  /** A counter that is done holds the number the encoder wrote. */
  lemma CounterReadBack(p: Protocol, l: Layout, m: Mapping, d: Derived, out: Mapping, i: nat)
    requires Compiled(p, l) && i < |l.fields| && l.fields[i].Counter() && !IsChecksumField(l, i)
    requires FieldDone(p, l, m, d, out, i)
    ensures var name := l.fields[i].name;
            match WireNumber(l, m, d, i)
            case Some(n) => name in out && out[name] == Num(n)
            case None => name in out ==> name in m && ToInt(m[name]).None?
  {
    assert FieldWellFormed(p, l, i);
    var f := l.fields[i];
    if Present(l, i, m) == Some(true) {
      assert FieldCompletes(p, l, m, d, i, out[f.name]);
      if i !in d.lengths && !f.hasExpected {
        assert ValueCompletes(p, l, m, d, i, out[f.name]);
      }
    }
  }

  lemma SuppliedReadBack(p: Protocol, l: Layout, m: Mapping, d: Derived, out: Mapping, source: nat, n: nat)
    requires Compiled(p, l) && Supplies(l, m, d, source, n) && l.fields[source].Counter()
    requires FieldDone(p, l, m, d, out, source)
    ensures Decoded(l, source, out) == Ok(n)
  {
    CounterReadBack(p, l, m, d, out, source);
  }

  /** The decoder decides a gate as the encoder did. */
  lemma GateReadBack(p: Protocol, l: Layout, m: Mapping, d: Derived, out: Mapping, i: nat)
    requires Compiled(p, l) && i < |l.fields|
    requires l.fields[i].Gated() ==> GateConsistent(l, m, d, i)
    requires forall k | 0 <= k < i :: FieldDone(p, l, m, d, out, k)
    ensures Present(l, i, out) == Present(l, i, m)
  {
    assert FieldWellFormed(p, l, i);
    var f := l.fields[i];
    if f.Gated() {
      var source := GateSource(f);
      assert FieldDone(p, l, m, d, out, source);
      CounterReadBack(p, l, m, d, out, source);
    }
  }

  // ----- One field -----

  lemma {:induction false} DerivedInLayout(p: Protocol, l: Layout, m: Mapping, n: nat)
    requires LayoutWellFormed(p, l) && n <= |l.fields| && Derive(p, l, m, n).Ok?
    ensures forall id | id in Derive(p, l, m, n).value.payloads ::
              id < |l.fields| && !l.fields[id].Scalar() && l.fields[id].name in m
              && PayloadBytes(l.fields[id], m[l.fields[id].name]) == Ok(Derive(p, l, m, n).value.payloads[id])
    decreases n
  {
    if n > 0 {
      DerivedInLayout(p, l, m, n - 1);
      assert FieldWellFormed(p, l, n - 1);
    }
  }

  lemma ScalarReadBack(f: Field, x: Value, bytes: seq<byte>, frame: seq<byte>, at: nat)
    requires f.Scalar() && EncodeScalar(f, x) == Ok(bytes) && SameBytes(frame, at, bytes, 0, |bytes|)
    requires f.hasExpected ==> x == Num(f.expected)
    ensures DecodeScalar(f, frame, at) == Ok((x, |bytes|))
  {
    ReadEncodedScalar(f, x);
    assert bytes[0..|bytes|] == bytes;
  }

  lemma PayloadReadBack(f: Field, bytes: seq<byte>, frame: seq<byte>, at: nat) returns (v: Value)
    requires f.kind.Raw? || f.kind.Text?
    requires SameBytes(frame, at, bytes, 0, |bytes|)
    requires f.kind.Text? ==> DecodeText(f.encoding, bytes).Some?
    requires f.reserved ==> bytes == Repeat(f.fill, |bytes|)
    ensures DecodePayload(f, frame, at, |bytes|) == Ok((v, |bytes|))
    ensures if f.kind.Text? then v.Str? && DecodeText(f.encoding, bytes) == Some(v.text) else v == Blob(bytes)
  {
    assert bytes[0..|bytes|] == bytes;
    v := DecodePayload(f, frame, at, |bytes|).value.0;
  }

  /** A present field other than a checksum decodes from its bytes to a value that completes it. */
  lemma FieldReadBack(p: Protocol, l: Layout, m: Mapping, d: Derived, i: nat, bytes: seq<byte>,
                      frame: seq<byte>, base: nat, offset: nat, out: Mapping) returns (v: Value)
    requires Compiled(p, l) && i < |l.fields| && !IsChecksumField(l, i)
    requires AdmissibleField(p, l, m, d, i) && Present(l, i, m) == Some(true)
    requires FieldBytes(p, l, m, d, i) == Ok(bytes) && SameBytes(frame, base + offset, bytes, 0, |bytes|)
    requires forall k | 0 <= k < i :: FieldDone(p, l, m, d, out, k)
    ensures DecodeValue(p, l, i, frame, base, offset, out) == Ok((v, |bytes|))
    ensures FieldCompletes(p, l, m, d, i, v)
    ensures ValuePadded(p, l, i, frame, base + offset, out[l.fields[i].name := v])
    decreases Depth(p, l), 2, 0
  {
    assert FieldWellFormed(p, l, i);
    var f := l.fields[i];
    var at := base + offset;
    if f.Scalar() {
      v := if i in d.lengths then Num(d.lengths[i]) else if f.hasExpected then Num(f.expected) else m[f.name];
      ScalarReadBack(f, v, bytes, frame, at);
    } else if f.reserved {
      v := PayloadReadBack(f, bytes, frame, at);
    } else {
      v := ValueReadBack(p, l, m, d, i, bytes, frame, base, offset, out);
    }
  }

  /** The same for a field whose value the mapping supplies. */
  lemma ValueReadBack(p: Protocol, l: Layout, m: Mapping, d: Derived, i: nat, bytes: seq<byte>,
                      frame: seq<byte>, base: nat, offset: nat, out: Mapping) returns (v: Value)
    requires Compiled(p, l) && i < |l.fields| && !l.fields[i].Scalar() && !l.fields[i].reserved
    requires AdmissibleValue(p, l, m, d, i) && l.fields[i].name in m
    requires EncodeValue(p, l, m, d, i, m[l.fields[i].name]) == Ok(bytes) && SameBytes(frame, base + offset, bytes, 0, |bytes|)
    requires forall k | 0 <= k < i :: FieldDone(p, l, m, d, out, k)
    ensures DecodeValue(p, l, i, frame, base, offset, out) == Ok((v, |bytes|))
    ensures ValueCompletes(p, l, m, d, i, v)
    ensures ValuePadded(p, l, i, frame, base + offset, out[l.fields[i].name := v])
    decreases Depth(p, l), 1, 0
  {
    assert FieldWellFormed(p, l, i);
    var f := l.fields[i];
    if f.kind.Raw? || f.kind.Text? {
      v := PayloadFieldReadBack(p, l, m, d, i, bytes, frame, base, offset, out);
    } else if f.kind.Nested? {
      v := NestedReadBack(p, l, m, d, i, bytes, frame, base, offset, out);
    } else if f.kind.Collection? {
      v := ListReadBack(p, l, m, d, i, bytes, frame, base, offset, out);
    } else {
      v := VariantReadBack(p, l, m, d, i, bytes, frame, base, offset, out);
    }
  }

  /** Bytes and texts. */
  lemma PayloadFieldReadBack(p: Protocol, l: Layout, m: Mapping, d: Derived, i: nat, bytes: seq<byte>,
                             frame: seq<byte>, base: nat, offset: nat, out: Mapping) returns (v: Value)
    requires Compiled(p, l) && i < |l.fields| && (l.fields[i].kind.Raw? || l.fields[i].kind.Text?) && !l.fields[i].reserved
    requires AdmissibleValue(p, l, m, d, i) && l.fields[i].name in m
    requires EncodeValue(p, l, m, d, i, m[l.fields[i].name]) == Ok(bytes) && SameBytes(frame, base + offset, bytes, 0, |bytes|)
    requires forall k | 0 <= k < i :: FieldDone(p, l, m, d, out, k)
    ensures DecodeValue(p, l, i, frame, base, offset, out) == Ok((v, |bytes|))
    ensures ValueCompletes(p, l, m, d, i, v)
    ensures ValuePadded(p, l, i, frame, base + offset, out[l.fields[i].name := v])
    decreases Depth(p, l), 0, 0
  {
    assert FieldWellFormed(p, l, i);
    var f := l.fields[i];
    if f.dynamicSize {
      SuppliedReadBack(p, l, m, d, out, f.sizeFrom, |bytes|);
    }
    v := PayloadReadBack(f, bytes, frame, base + offset);
  }

  /** Nested structs. */
  lemma NestedReadBack(p: Protocol, l: Layout, m: Mapping, d: Derived, i: nat, bytes: seq<byte>,
                       frame: seq<byte>, base: nat, offset: nat, out: Mapping) returns (v: Value)
    requires Compiled(p, l) && i < |l.fields| && l.fields[i].kind.Nested?
    requires AdmissibleValue(p, l, m, d, i) && l.fields[i].name in m
    requires EncodeValue(p, l, m, d, i, m[l.fields[i].name]) == Ok(bytes) && SameBytes(frame, base + offset, bytes, 0, |bytes|)
    requires forall k | 0 <= k < i :: FieldDone(p, l, m, d, out, k)
    ensures DecodeValue(p, l, i, frame, base, offset, out) == Ok((v, |bytes|))
    ensures ValueCompletes(p, l, m, d, i, v)
    ensures ValuePadded(p, l, i, frame, base + offset, out[l.fields[i].name := v])
    decreases Depth(p, l), 0, 0
  {
    assert FieldWellFormed(p, l, i);
    SameAsSlice(frame, base + offset, bytes);
    var f := l.fields[i];
    NestedIsCompiled(p, l, f, f.structId);
    var inner := StructReadBack(p, p.structs[f.structId], AsMapping(m[f.name]).value, frame, base + offset, |bytes|);
    v := Rec(inner);
  }

  /** Collections. */
  lemma ListReadBack(p: Protocol, l: Layout, m: Mapping, d: Derived, i: nat, bytes: seq<byte>,
                     frame: seq<byte>, base: nat, offset: nat, out: Mapping) returns (v: Value)
    requires Compiled(p, l) && i < |l.fields| && l.fields[i].kind.Collection?
    requires AdmissibleValue(p, l, m, d, i) && l.fields[i].name in m
    requires EncodeValue(p, l, m, d, i, m[l.fields[i].name]) == Ok(bytes) && SameBytes(frame, base + offset, bytes, 0, |bytes|)
    requires forall k | 0 <= k < i :: FieldDone(p, l, m, d, out, k)
    ensures DecodeValue(p, l, i, frame, base, offset, out) == Ok((v, |bytes|))
    ensures ValueCompletes(p, l, m, d, i, v)
    ensures ValuePadded(p, l, i, frame, base + offset, out[l.fields[i].name := v])
    decreases Depth(p, l), 0, 0
  {
    assert FieldWellFormed(p, l, i);
    SameAsSlice(frame, base + offset, bytes);
    var f := l.fields[i];
    NestedIsCompiled(p, l, f, f.structId);
    var items := AsItems(m[f.name]).value;
    if f.dynamicCount {
      SuppliedReadBack(p, l, m, d, out, f.countFrom, |items|);
    }
    var outs := CollectionReadBack(p, p.structs[f.structId], items, frame, base + offset, |bytes|);
    ListFrom(p, l, m, d, i, items, outs, |bytes|, frame, base, offset, out);
    v := List(outs);
  }

  /** Elements that were read back make up a field that was. */
  lemma ListFrom(p: Protocol, l: Layout, m: Mapping, d: Derived, i: nat, items: seq<Value>, outs: seq<Value>, size: nat,
                 frame: seq<byte>, base: nat, offset: nat, out: Mapping)
    requires Compiled(p, l) && i < |l.fields| && l.fields[i].kind.Collection? && l.fields[i].name in m
    requires AdmissibleValue(p, l, m, d, i) && AsItems(m[l.fields[i].name]) == Ok(items)
    requires FieldWellFormed(p, l, i) && Compiled(p, p.structs[l.fields[i].structId])
    requires var f := l.fields[i];
             (if f.dynamicCount then Decoded(l, f.countFrom, out) else Ok(f.fixedCount)) == Ok(|items|)
    requires base + offset <= |frame| && |items| <= (|frame| - (base + offset)) / p.structs[l.fields[i].structId].minimumSize
    requires DecodeItems(p, p.structs[l.fields[i].structId], frame, base + offset, |items|) == Ok((outs, size))
    requires ItemsComplete(p, p.structs[l.fields[i].structId], items, outs)
    requires ItemsPadded(p, p.structs[l.fields[i].structId], frame, base + offset, |items|)
    ensures DecodeValue(p, l, i, frame, base, offset, out) == Ok((List(outs), size))
    ensures ValueCompletes(p, l, m, d, i, List(outs))
    ensures ValuePadded(p, l, i, frame, base + offset, out[l.fields[i].name := List(outs)])
  {
  }

  /** Tagged variants. */
  lemma VariantReadBack(p: Protocol, l: Layout, m: Mapping, d: Derived, i: nat, bytes: seq<byte>,
                        frame: seq<byte>, base: nat, offset: nat, out: Mapping) returns (v: Value)
    requires Compiled(p, l) && i < |l.fields| && l.fields[i].kind.Variant?
    requires AdmissibleValue(p, l, m, d, i) && l.fields[i].name in m
    requires EncodeValue(p, l, m, d, i, m[l.fields[i].name]) == Ok(bytes) && SameBytes(frame, base + offset, bytes, 0, |bytes|)
    requires forall k | 0 <= k < i :: FieldDone(p, l, m, d, out, k)
    ensures DecodeValue(p, l, i, frame, base, offset, out) == Ok((v, |bytes|))
    ensures ValueCompletes(p, l, m, d, i, v)
    ensures ValuePadded(p, l, i, frame, base + offset, out[l.fields[i].name := v])
    decreases Depth(p, l), 0, 0
  {
    assert FieldWellFormed(p, l, i);
    SameAsSlice(frame, base + offset, bytes);
    var f := l.fields[i];
    var k := SelectCase(l, f, m).value;
    assert CaseWellFormed(p, f, k);
    NestedIsCompiled(p, l, f, f.cases[k].structId);
    SuppliedReadBack(p, l, m, d, out, f.tagFrom, f.cases[k].tag);
    SameCase(l, f, m, k);
    var inner := StructReadBack(p, p.structs[f.cases[k].structId], AsMapping(m[f.name]).value, frame, base + offset, |bytes|);
    v := Rec(inner);
    assert NamesDiffer(l.fields, f.tagFrom, i);
  }

  /** The decoder selects the encoder's case from the tag that was written. */
  lemma SameCase(l: Layout, f: Field, m: Mapping, k: nat)
    requires f.tagFrom < |l.fields| && SelectCase(l, f, m) == Ok(k)
    ensures FindCase(f.cases, f.cases[k].tag, 0) == Some(k)
  {
  }

  lemma SameAsSlice(frame: seq<byte>, at: nat, bytes: seq<byte>)
    requires SameBytes(frame, at, bytes, 0, |bytes|)
    ensures bytes == frame[at..at + |bytes|]
  {
    assert bytes[0..|bytes|] == bytes;
  }

  lemma StructReadBack(p: Protocol, l: Layout, m: Mapping, frame: seq<byte>, at: nat, size: nat) returns (out: Mapping)
    requires Compiled(p, l) && !l.isMessage && Admissible(p, l, m) && at + size <= |frame|
    requires EncodeLayout(p, l, m) == Ok(frame[at..at + size])
    ensures DecodeLayout(p, l, frame, at, false) == Ok((out, size))
    ensures Completes(p, l, m, out) && ZeroPadded(p, l, frame, at)
    decreases Depth(p, l), 5, 0
  {
    var bytes := frame[at..at + size];
    assert bytes[0..|bytes|] == bytes;
    out := DecodeEncoded(p, l, m, bytes, frame, at, false);
  }

  lemma CollectionReadBack(p: Protocol, e: Layout, items: seq<Value>, frame: seq<byte>, at: nat, size: nat)
    returns (outs: seq<Value>)
    requires Compiled(p, e) && !e.isMessage && e.minimumSize > 0 && at + size <= |frame|
    requires AdmissibleItems(p, e, items) && EncodeItems(p, e, items) == Ok(frame[at..at + size])
    ensures |items| <= (|frame| - at) / e.minimumSize
    ensures DecodeItems(p, e, frame, at, |items|) == Ok((outs, size))
    ensures ItemsComplete(p, e, items, outs) && ItemsPadded(p, e, frame, at, |items|)
    decreases Depth(p, e), 7, 0
  {
    outs := ItemsReadBack(p, e, items, frame, at, size);
    ItemsTakeMinimum(p, e, frame, at, |items|, outs, size);
    QuotientAtLeast(|frame| - at, e.minimumSize, |items|);
  }

  /** The items decode to `outs`, which complete them, over `size` zero-padded bytes. */
  ghost predicate ItemsRead(p: Protocol, e: Layout, items: seq<Value>, frame: seq<byte>, at: nat, outs: seq<Value>, size: nat)
    requires Compiled(p, e)
  {
    && DecodeItems(p, e, frame, at, |items|) == Ok((outs, size))
    && ItemsComplete(p, e, items, outs)
    && ItemsPadded(p, e, frame, at, |items|)
  }

  lemma ItemsReadBack(p: Protocol, e: Layout, items: seq<Value>, frame: seq<byte>, at: nat, size: nat)
    returns (outs: seq<Value>)
    requires Compiled(p, e) && !e.isMessage && e.minimumSize > 0 && at + size <= |frame|
    requires AdmissibleItems(p, e, items) && EncodeItems(p, e, items) == Ok(frame[at..at + size])
    ensures ItemsRead(p, e, items, frame, at, outs, size)
    decreases Depth(p, e), 6, |items|
  {
    if items == [] {
      outs := [];
    } else {
      var prev, last, first, inner := LastReadBack(p, e, items, frame, at, size);
      var before := ItemsReadBack(p, e, prev, frame, at, first);
      outs := OneMoreReadBack(p, e, prev, last, before, first, inner, size - first, frame, at);
    }
  }

  lemma OneMoreReadBack(p: Protocol, e: Layout, prev: seq<Value>, last: Mapping, before: seq<Value>, size: nat,
                        inner: Mapping, consumed: nat, frame: seq<byte>, at: nat) returns (outs: seq<Value>)
    requires Compiled(p, e) && e.minimumSize > 0
    requires ItemsRead(p, e, prev, frame, at, before, size) && at + size <= |frame|
    requires DecodeLayout(p, e, frame, at + size, false) == Ok((inner, consumed))
    requires Completes(p, e, last, inner) && ZeroPadded(p, e, frame, at + size)
    ensures ItemsRead(p, e, prev + [Rec(last)], frame, at, outs, size + consumed)
  {
    LayoutTakesMinimum(p, e, frame, at + size, false, inner, consumed);
    OneMoreItem(p, e, frame, at, |prev| + 1, before, size, inner, consumed);
    outs := before + [Rec(inner)];
    OneMoreComplete(p, e, prev, last, before, inner);
    OneMorePadded(p, e, frame, at, |prev|, before, size);
  }

  lemma OneMorePadded(p: Protocol, e: Layout, frame: seq<byte>, at: nat, n: nat, before: seq<Value>, size: nat)
    requires Compiled(p, e) && DecodeItems(p, e, frame, at, n) == Ok((before, size))
    requires ItemsPadded(p, e, frame, at, n) && ZeroPadded(p, e, frame, at + size)
    ensures ItemsPadded(p, e, frame, at, n + 1)
  {
  }

  /** The last element is read back from behind the others. */
  lemma LastReadBack(p: Protocol, e: Layout, items: seq<Value>, frame: seq<byte>, at: nat, size: nat)
    returns (prev: seq<Value>, last: Mapping, first: nat, inner: Mapping)
    requires Compiled(p, e) && !e.isMessage && at + size <= |frame|
    requires items != [] && AdmissibleItems(p, e, items) && EncodeItems(p, e, items) == Ok(frame[at..at + size])
    ensures items == prev + [Rec(last)] && first <= size
    ensures AdmissibleItems(p, e, prev) && EncodeItems(p, e, prev) == Ok(frame[at..at + first])
    ensures DecodeLayout(p, e, frame, at + first, false) == Ok((inner, size - first))
    ensures Completes(p, e, last, inner) && ZeroPadded(p, e, frame, at + first)
    decreases Depth(p, e), 6, 0
  {
    prev, last, first := LastEncoded(p, e, items, frame, at, size);
    inner := StructReadBack(p, e, last, frame, at + first, size - first);
  }

  /** The bytes of a collection end in those of its last element. */
  lemma LastEncoded(p: Protocol, e: Layout, items: seq<Value>, frame: seq<byte>, at: nat, size: nat)
    returns (prev: seq<Value>, last: Mapping, first: nat)
    requires Compiled(p, e) && at + size <= |frame|
    requires items != [] && AdmissibleItems(p, e, items) && EncodeItems(p, e, items) == Ok(frame[at..at + size])
    ensures items == prev + [Rec(last)] && first <= size
    ensures AdmissibleItems(p, e, prev) && EncodeItems(p, e, prev) == Ok(frame[at..at + first])
    ensures Admissible(p, e, last) && EncodeLayout(p, e, last) == Ok(frame[at + first..at + size])
  {
    prev := items[..|items| - 1];
    FewerAdmissible(p, e, items, prev);
    last := items[|items| - 1].fields;
    first := |EncodeItems(p, e, prev).value|;
    SplitSlice(frame, at, at + size, EncodeItems(p, e, prev).value, EncodeLayout(p, e, last).value);
  }

  lemma SplitSlice(frame: seq<byte>, from: nat, to: nat, first: seq<byte>, rest: seq<byte>)
    requires from <= to <= |frame| && frame[from..to] == first + rest
    ensures first == frame[from..from + |first|] && rest == frame[from + |first|..to]
  {
    assert first == (first + rest)[..|first|] == frame[from..to][..|first|];
    assert rest == (first + rest)[|first|..] == frame[from..to][|first|..];
  }

  lemma FewerAdmissible(p: Protocol, e: Layout, items: seq<Value>, prev: seq<Value>)
    requires Compiled(p, e) && items != [] && prev == items[..|items| - 1]
    requires AdmissibleItems(p, e, items)
    ensures AdmissibleItems(p, e, prev)
    ensures items[|items| - 1].Rec? && Admissible(p, e, items[|items| - 1].fields)
  {
    assert AdmissibleItem(p, e, items, |items| - 1);
    forall k | 0 <= k < |prev|
      ensures AdmissibleItem(p, e, prev, k)
    {
      assert AdmissibleItem(p, e, items, k);
    }
  }

  lemma OneMoreComplete(p: Protocol, e: Layout, prev: seq<Value>, last: Mapping, before: seq<Value>, inner: Mapping)
    requires Compiled(p, e) && ItemsComplete(p, e, prev, before) && Completes(p, e, last, inner)
    ensures ItemsComplete(p, e, prev + [Rec(last)], before + [Rec(inner)])
  {
    var items, outs := prev + [Rec(last)], before + [Rec(inner)];
    forall k | 0 <= k < |items|
      ensures ItemCompletes(p, e, items, outs, k)
    {
      if k < |prev| {
        assert ItemCompletes(p, e, prev, before, k);
      }
    }
  }

  // ----- All fields -----

  /** The first `n` fields have been read back into `out`. */
  ghost predicate ReadBack(p: Protocol, l: Layout, m: Mapping, d: Derived, frame: seq<byte>, base: nat,
                           spans: seq<Span>, n: nat, out: Mapping)
    requires Compiled(p, l) && n <= |l.fields| == |spans|
  {
    && DecodeFields(p, l, frame, base, n) == Ok(Decoding(out, Before(spans, n), spans[..n]))
    && OnlyNames(l, out, n)
    && forall i | 0 <= i < n :: FieldReadOut(p, l, m, d, frame, base, spans, out, i)
  }

  ghost predicate FieldReadOut(p: Protocol, l: Layout, m: Mapping, d: Derived, frame: seq<byte>, base: nat,
                               spans: seq<Span>, out: Mapping, i: nat)
    requires Compiled(p, l) && i < |l.fields| == |spans|
  {
    && FieldDone(p, l, m, d, out, i)
    && ZeroGap(frame, base + Before(spans, i), base + spans[i].start)
    && (l.fields[i].name in out ==> ValuePadded(p, l, i, frame, base + spans[i].start, out))
  }

  /** What was read out stays so as later fields are added. */
  lemma StaysReadOut(p: Protocol, l: Layout, m: Mapping, d: Derived, frame: seq<byte>, base: nat,
                     spans: seq<Span>, out: Mapping, out': Mapping, i: nat)
    requires Compiled(p, l) && i < |l.fields| == |spans|
    requires FieldReadOut(p, l, m, d, frame, base, spans, out, i) && Agree(l, out, out', i + 1)
    ensures FieldReadOut(p, l, m, d, frame, base, spans, out', i)
  {
    assert FieldWellFormed(p, l, i);
    var f := l.fields[i];
    if f.kind.Variant? {
      assert Decoded(l, f.tagFrom, out) == Decoded(l, f.tagFrom, out');
    }
  }

  lemma StayReadOut(p: Protocol, l: Layout, m: Mapping, d: Derived, frame: seq<byte>, base: nat,
                    spans: seq<Span>, out: Mapping, out': Mapping, n: nat)
    requires Compiled(p, l) && n <= |l.fields| == |spans| && Agree(l, out, out', n)
    requires forall i | 0 <= i < n :: FieldReadOut(p, l, m, d, frame, base, spans, out, i)
    ensures forall i | 0 <= i < n :: FieldReadOut(p, l, m, d, frame, base, spans, out', i)
  {
    forall i | 0 <= i < n
      ensures FieldReadOut(p, l, m, d, frame, base, spans, out', i)
    {
      assert FieldReadOut(p, l, m, d, frame, base, spans, out, i);
      StaysReadOut(p, l, m, d, frame, base, spans, out, out', i);
    }
  }

  /** A present field, checksum or not, is read back from its place in the frame. */
  lemma PlacedReadBack(p: Protocol, l: Layout, m: Mapping, d: Derived, e: seq<byte>, spans: seq<Span>,
                       frame: seq<byte>, base: nat, i: nat, out: Mapping) returns (v: Value)
    requires Compiled(p, l) && i < |l.fields| == |spans| && SameBytes(frame, base, e, 0, |e|)
    requires FieldLaid(p, l, m, d, e, spans, i) && AdmissibleField(p, l, m, d, i) && Present(l, i, m) == Some(true)
    requires forall k | 0 <= k < i :: FieldDone(p, l, m, d, out, k)
    ensures spans[i].start == AlignUp(Before(spans, i), l.fields[i].alignment) && spans[i].start <= spans[i].end
    ensures DecodeValue(p, l, i, frame, base, spans[i].start, out) == Ok((v, spans[i].end - spans[i].start))
    ensures FieldCompletes(p, l, m, d, i, v)
    ensures ValuePadded(p, l, i, frame, base + spans[i].start, out[l.fields[i].name := v])
    decreases Depth(p, l), 2, 1
  {
    var bytes := PlacedBytes(p, l, m, d, e, spans, frame, base, i);
    if IsChecksumField(l, i) {
      v := ChecksumReadBack(p, l, m, d, i, frame, base, spans[i].start, out);
    } else {
      v := FieldReadBack(p, l, m, d, i, bytes, frame, base, spans[i].start, out);
    }
  }

  lemma PlacedBytes(p: Protocol, l: Layout, m: Mapping, d: Derived, e: seq<byte>, spans: seq<Span>,
                    frame: seq<byte>, base: nat, i: nat) returns (bytes: seq<byte>)
    requires Compiled(p, l) && i < |l.fields| == |spans| && SameBytes(frame, base, e, 0, |e|)
    requires FieldLaid(p, l, m, d, e, spans, i) && Present(l, i, m) == Some(true)
    ensures FieldBytes(p, l, m, d, i) == Ok(bytes)
    ensures spans[i] == Span(AlignUp(Before(spans, i), l.fields[i].alignment), spans[i].start + |bytes|)
    ensures if IsChecksumField(l, i) then |bytes| == l.fields[i].width && base + spans[i].end <= |frame|
            else SameBytes(frame, base + spans[i].start, bytes, 0, |bytes|)
  {
    assert FieldWellFormed(p, l, i);
    bytes := FieldBytes(p, l, m, d, i).value;
    SamePart(frame, base, e, 0, |e|, spans[i].start, |bytes|);
    assert bytes[0..|bytes|] == bytes;
  }

  lemma ChecksumReadBack(p: Protocol, l: Layout, m: Mapping, d: Derived, i: nat,
                         frame: seq<byte>, base: nat, offset: nat, out: Mapping) returns (v: Value)
    requires Compiled(p, l) && i < |l.fields| && IsChecksumField(l, i)
    requires AdmissibleField(p, l, m, d, i) && base + offset + l.fields[i].width <= |frame|
    ensures DecodeValue(p, l, i, frame, base, offset, out) == Ok((v, l.fields[i].width))
    ensures FieldCompletes(p, l, m, d, i, v)
    ensures ValuePadded(p, l, i, frame, base + offset, out[l.fields[i].name := v])
  {
    var c :| c in l.checksums && c.fieldId == i;
    var k :| 0 <= k < |l.checksums| && l.checksums[k] == c;
    assert ChecksumWellFormed(l, k);
    assert FieldWellFormed(p, l, i);
    v := DecodeScalar(l.fields[i], frame, base + offset).value.0;
  }

  lemma GapReadBack(e: seq<byte>, frame: seq<byte>, base: nat, from: nat, to: nat)
    requires SameBytes(frame, base, e, 0, |e|) && ZeroGap(e, from, to) && to <= |e|
    ensures ZeroGap(frame, base + from, base + to)
  {
    assert e[0..|e|] == e;
    forall x | base + from <= x < base + to && x < |frame|
      ensures frame[x] == 0
    {
      assert frame[base..base + |e|][x - base] == e[x - base];
    }
  }

  /** Field by field, the decoder reads back what the encoder laid out. */
  lemma FieldsReadBack(p: Protocol, l: Layout, m: Mapping, d: Derived, e: seq<byte>, spans: seq<Span>,
                       frame: seq<byte>, base: nat, n: nat) returns (out: Mapping)
    requires Compiled(p, l) && n <= |l.fields| == |spans| && SameBytes(frame, base, e, 0, |e|)
    requires forall i | 0 <= i < |l.fields| :: FieldLaid(p, l, m, d, e, spans, i)
    requires forall i | 0 <= i < |l.fields| :: AdmissibleField(p, l, m, d, i)
    ensures ReadBack(p, l, m, d, frame, base, spans, n, out)
    decreases Depth(p, l), 3, n
  {
    if n == 0 {
      out := map[];
    } else {
      var before := FieldsReadBack(p, l, m, d, e, spans, frame, base, n - 1);
      assert FieldLaid(p, l, m, d, e, spans, n - 1) && AdmissibleField(p, l, m, d, n - 1);
      out := OneMoreField(p, l, m, d, e, spans, frame, base, n - 1, before);
    }
  }

  lemma OneMoreField(p: Protocol, l: Layout, m: Mapping, d: Derived, e: seq<byte>, spans: seq<Span>,
                     frame: seq<byte>, base: nat, i: nat, before: Mapping) returns (out: Mapping)
    requires Compiled(p, l) && i < |l.fields| == |spans| && SameBytes(frame, base, e, 0, |e|)
    requires FieldLaid(p, l, m, d, e, spans, i) && AdmissibleField(p, l, m, d, i)
    requires ReadBack(p, l, m, d, frame, base, spans, i, before)
    ensures ReadBack(p, l, m, d, frame, base, spans, i + 1, out)
    decreases Depth(p, l), 2, 4
  {
    AllDone(p, l, m, d, frame, base, spans, i, before);
    out := StepReadBack(p, l, m, d, e, spans, frame, base, i, before);
    StayReadOut(p, l, m, d, frame, base, spans, before, out, i);
  }

  lemma StepReadBack(p: Protocol, l: Layout, m: Mapping, d: Derived, e: seq<byte>, spans: seq<Span>,
                     frame: seq<byte>, base: nat, i: nat, before: Mapping) returns (out: Mapping)
    requires Compiled(p, l) && i < |l.fields| == |spans| && SameBytes(frame, base, e, 0, |e|)
    requires FieldLaid(p, l, m, d, e, spans, i) && AdmissibleField(p, l, m, d, i)
    requires OnlyNames(l, before, i) && forall k | 0 <= k < i :: FieldDone(p, l, m, d, before, k)
    ensures DecodeOne(p, l, frame, base, i, Decoding(before, Before(spans, i), spans[..i]))
            == Ok(Decoding(out, spans[i].end, spans[..i + 1]))
    ensures FieldReadOut(p, l, m, d, frame, base, spans, out, i)
    ensures Agree(l, before, out, i) && OnlyNames(l, out, i + 1)
    decreases Depth(p, l), 2, 3
  {
    var prev := Decoding(before, Before(spans, i), spans[..i]);
    assert spans[..i + 1] == spans[..i] + [spans[i]];
    GateReadBack(p, l, m, d, before, i);
    if Present(l, i, m) == Some(true) {
      out := PresentReadBack(p, l, m, d, e, spans, frame, base, i, before);
    } else {
      StepAbsent(p, l, frame, base, i, prev);
      out := before;
    }
    AddedNames(l, before, i, out);
  }

  lemma PresentReadBack(p: Protocol, l: Layout, m: Mapping, d: Derived, e: seq<byte>, spans: seq<Span>,
                        frame: seq<byte>, base: nat, i: nat, before: Mapping) returns (out: Mapping)
    requires Compiled(p, l) && i < |l.fields| == |spans| && SameBytes(frame, base, e, 0, |e|)
    requires FieldLaid(p, l, m, d, e, spans, i) && AdmissibleField(p, l, m, d, i)
    requires forall k | 0 <= k < i :: FieldDone(p, l, m, d, before, k)
    requires Present(l, i, m) == Some(true) && Present(l, i, before) == Some(true)
    ensures DecodeOne(p, l, frame, base, i, Decoding(before, Before(spans, i), spans[..i]))
            == Ok(Decoding(out, spans[i].end, spans[..i + 1]))
    ensures FieldReadOut(p, l, m, d, frame, base, spans, out, i)
    ensures out.Keys == before.Keys + {l.fields[i].name} && forall x | x in before && x != l.fields[i].name :: out[x] == before[x]
    decreases Depth(p, l), 2, 2
  {
    var prev := Decoding(before, Before(spans, i), spans[..i]);
    assert spans[..i + 1] == spans[..i] + [spans[i]];
    var v := PlacedReadBack(p, l, m, d, e, spans, frame, base, i, before);
    StepPresent(p, l, frame, base, i, prev, v, spans[i].end - spans[i].start);
    GapReadBack(e, frame, base, Before(spans, i), spans[i].start);
    out := before[l.fields[i].name := v];
  }

  lemma AllDone(p: Protocol, l: Layout, m: Mapping, d: Derived, frame: seq<byte>, base: nat, spans: seq<Span>, n: nat, out: Mapping)
    requires Compiled(p, l) && n <= |l.fields| == |spans| && ReadBack(p, l, m, d, frame, base, spans, n, out)
    ensures forall i | 0 <= i < n :: FieldDone(p, l, m, d, out, i)
  {
    forall i | 0 <= i < n
      ensures FieldDone(p, l, m, d, out, i)
    {
      assert FieldReadOut(p, l, m, d, frame, base, spans, out, i);
    }
  }

  // ----- Checksums and the dispatch prefix -----

  lemma CounterValue(f: Field, frame: seq<byte>, at: nat, v: Value, e: seq<byte>, from: nat, to: nat)
    requires f.Counter() && DecodeScalar(f, frame, at) == Ok((v, f.width))
    requires to == from + f.width && SameBytes(frame, at, e, from, f.width)
    ensures v == Num(FromBytes(e[from..to], f.order))
  {
  }

  lemma ChecksumVerifies(p: Protocol, l: Layout, e: seq<byte>, frame: seq<byte>, base: nat, st: Decoding, k: nat)
    requires Compiled(p, l) && |st.spans| == |l.fields| && k < |l.checksums| && SameBytes(frame, base, e, 0, |e|)
    requires ChecksumIn(p, l, e, st.spans, k) && ChecksumWellFormed(l, k)
    requires var span := st.spans[l.checksums[k].fieldId];
             var name := l.fields[l.checksums[k].fieldId].name;
             name in st.out && st.out[name] == Num(FromBytes(e[span.start..span.end], l.fields[l.checksums[k].fieldId].order))
    ensures VerifyOne(p, l, k, frame, base, st, |e|).Ok?
  {
    var c := l.checksums[k];
    var from, to := AnchorOffset(c.from, st.spans, |e|), AnchorOffset(c.to, st.spans, |e|);
    SliceSame(frame, base, e, from, to);
  }

  lemma SliceSame(frame: seq<byte>, base: nat, e: seq<byte>, from: nat, to: nat)
    requires SameBytes(frame, base, e, 0, |e|) && from <= to <= |e|
    ensures Slice(frame, base + from, base + to) == e[from..to]
  {
    SamePart(frame, base, e, 0, |e|, from, to - from);
  }

  lemma ChecksumValue(p: Protocol, l: Layout, e: seq<byte>, frame: seq<byte>, base: nat, st: Decoding, k: nat)
    requires Compiled(p, l) && |st.spans| == |l.fields| && k < |l.checksums| && SameBytes(frame, base, e, 0, |e|)
    requires ChecksumIn(p, l, e, st.spans, k) && ChecksumWellFormed(l, k)
    requires FieldDecoded(p, l, frame, base, st.out, st.spans, l.checksums[k].fieldId)
    requires Present(l, l.checksums[k].fieldId, st.out) == Some(true)
    ensures var span := st.spans[l.checksums[k].fieldId];
            var name := l.fields[l.checksums[k].fieldId].name;
            name in st.out && st.out[name] == Num(FromBytes(e[span.start..span.end], l.fields[l.checksums[k].fieldId].order))
  {
    var i := l.checksums[k].fieldId;
    var span := st.spans[i];
    CounterSize(p, l, frame, base, st.out, st.spans, i);
    SamePart(frame, base, e, 0, |e|, span.start, span.end - span.start);
    CounterValue(l.fields[i], frame, base + span.start, st.out[l.fields[i].name], e, span.start, span.end);
  }

  lemma {:induction false} ChecksumsVerify(p: Protocol, l: Layout, frame: seq<byte>, base: nat, st: Decoding, limit: nat, n: nat)
    requires ChecksumsWellFormed(l) && |st.spans| == |l.fields| && n <= |l.checksums|
    requires forall k | 0 <= k < n :: VerifiesAt(p, l, k, frame, base, st, limit)
    ensures VerifyChecksums(p, l, frame, base, st, limit, n).Ok?
    decreases n
  {
    if n > 0 {
      ChecksumsVerify(p, l, frame, base, st, limit, n - 1);
      assert VerifiesAt(p, l, n - 1, frame, base, st, limit);
    }
  }

  ghost predicate VerifiesAt(p: Protocol, l: Layout, k: nat, frame: seq<byte>, base: nat, st: Decoding, limit: nat)
    requires ChecksumsWellFormed(l) && |st.spans| == |l.fields| && k < |l.checksums|
  {
    assert ChecksumWellFormed(l, k);
    VerifyOne(p, l, k, frame, base, st, limit).Ok?
  }

  /** The constants that spell out the dispatch prefix follow one another in the encoding. */
  lemma {:induction false} PrefixInFrame(p: Protocol, l: Layout, m: Mapping, d: Derived, e: seq<byte>, spans: seq<Span>, i: nat, n: nat)
    requires Compiled(p, l) && i <= n <= |l.fields| == |spans| && Before(spans, i) <= |e|
    requires forall k | 0 <= k < |l.fields| :: FieldLaid(p, l, m, d, e, spans, k)
    requires forall k | 0 <= k < |l.fields| :: AdmissibleField(p, l, m, d, k)
    requires PackedRun(l.fields[i..n], Before(spans, i))
    ensures RunAt(e, Before(spans, i), LeadingBytes(l.fields[i..n]))
    decreases n - i
  {
    if i < n && Constant(l.fields[i]) {
      assert FieldLaid(p, l, m, d, e, spans, i) && AdmissibleField(p, l, m, d, i);
      RunStarts(l.fields, i, n, Before(spans, i));
      ConstantPlaced(p, l, m, d, e, spans, i);
      PrefixInFrame(p, l, m, d, e, spans, i + 1, n);
      JoinRuns(e, Before(spans, i), Before(spans, i + 1), ConstantBytes(l.fields[i]), LeadingBytes(l.fields[i + 1..n]));
    } else {
      NoRun(e, Before(spans, i), l.fields[i..n]);
    }
  }

  lemma ConstantPlaced(p: Protocol, l: Layout, m: Mapping, d: Derived, e: seq<byte>, spans: seq<Span>, i: nat)
    requires Compiled(p, l) && i < |l.fields| == |spans| && Constant(l.fields[i]) && !l.fields[i].Gated()
    requires AlignUp(Before(spans, i), l.fields[i].alignment) == Before(spans, i)
    requires FieldLaid(p, l, m, d, e, spans, i) && AdmissibleField(p, l, m, d, i)
    ensures spans[i] == Span(Before(spans, i), Before(spans, i) + l.fields[i].width) && spans[i].end <= |e|
    ensures e[spans[i].start..spans[i].end] == ConstantBytes(l.fields[i])
  {
    assert FieldWellFormed(p, l, i);
    var f := l.fields[i];
    assert FieldBytes(p, l, m, d, i) == EncodeScalar(f, Num(f.expected));
    Modest(f.expected, Pow256(f.width));
  }

  lemma PrefixReadBack(p: Protocol, l: Layout, m: Mapping, d: Derived, e: seq<byte>, spans: seq<Span>, frame: seq<byte>, base: nat)
    requires Compiled(p, l) && |spans| == |l.fields| && PrefixSound(l) && SameBytes(frame, base, e, 0, |e|)
    requires forall i | 0 <= i < |l.fields| :: FieldLaid(p, l, m, d, e, spans, i)
    requires forall i | 0 <= i < |l.fields| :: AdmissibleField(p, l, m, d, i)
    ensures Slice(frame, base, base + |l.dispatchPrefix|) == l.dispatchPrefix
  {
    var n: nat :| n <= |l.fields| && SpellsOut(l, n);
    assert l.fields[0..n] == l.fields[..n];
    PrefixInFrame(p, l, m, d, e, spans, 0, n);
    FrontOfRun(e, LeadingBytes(l.fields[..n]), l.dispatchPrefix);
    SamePart(frame, base, e, 0, |e|, 0, |l.dispatchPrefix|);
    assert e[0..|l.dispatchPrefix|] == e[..|l.dispatchPrefix|];
  }

  // ----- The theorem -----

  /** Decoding the encoding of an admissible mapping succeeds, consumes exactly the encoded bytes, and
      returns the mapping completed with its derived lengths, constants, fill bytes and checksums. */
  lemma DecodeEncoded(p: Protocol, l: Layout, m: Mapping, e: seq<byte>, frame: seq<byte>, base: nat, bounded: bool)
    returns (out: Mapping)
    requires Compiled(p, l) && Admissible(p, l, m) && EncodeLayout(p, l, m) == Ok(e)
    requires SameBytes(frame, base, e, 0, |e|)
    requires l.isMessage ==> PrefixSound(l)
    requires l.isMessage || bounded ==> base + |e| == |frame|
    ensures DecodeLayout(p, l, frame, base, bounded) == Ok((out, |e|))
    ensures Completes(p, l, m, out) && ZeroPadded(p, l, frame, base)
    decreases Depth(p, l), 4, 0
  {
    var n := |l.fields|;
    var d, spans := EncodingLaidOut(p, l, m, e);
    EachAdmissible(p, l, m, d);
    out := FieldsReadBack(p, l, m, d, e, spans, frame, base, n);
    assert spans[..n] == spans;
    var st := Decoding(out, |e|, spans);
    FieldsTakeMinimum(p, l, frame, base, n, st);
    AllDone(p, l, m, d, frame, base, spans, n, out);
    AllVerify(p, l, m, d, e, frame, base, st);
    if l.isMessage {
      PrefixReadBack(p, l, m, d, e, spans, frame, base);
    }
    AcceptFrom(p, l, frame, base, bounded, st);
    PaddedFrom(p, l, m, d, frame, base, st);
  }

  lemma EachAdmissible(p: Protocol, l: Layout, m: Mapping, d: Derived)
    requires Compiled(p, l) && Admissible(p, l, m) && Derive(p, l, m, |l.fields|) == Ok(d)
    ensures forall i | 0 <= i < |l.fields| :: AdmissibleField(p, l, m, d, i)
  {
  }

  lemma AllVerify(p: Protocol, l: Layout, m: Mapping, d: Derived, e: seq<byte>, frame: seq<byte>, base: nat, st: Decoding)
    requires Compiled(p, l) && |st.spans| == |l.fields| && SameBytes(frame, base, e, 0, |e|)
    requires forall i | 0 <= i < |l.fields| :: AdmissibleField(p, l, m, d, i)
    requires forall k | 0 <= k < |l.checksums| :: ChecksumIn(p, l, e, st.spans, k)
    requires DecodeFields(p, l, frame, base, |l.fields|) == Ok(st)
    requires forall i | 0 <= i < |l.fields| :: FieldDone(p, l, m, d, st.out, i)
    ensures VerifyChecksums(p, l, frame, base, st, |e|, |l.checksums|).Ok?
  {
    DecodeFieldsFlat(p, l, frame, base, |l.fields|);
    forall k | 0 <= k < |l.checksums|
      ensures VerifiesAt(p, l, k, frame, base, st, |e|)
    {
      assert ChecksumWellFormed(l, k) && l.checksums[k] in l.checksums;
      var i := l.checksums[k].fieldId;
      assert AdmissibleField(p, l, m, d, i) && FieldDone(p, l, m, d, st.out, i);
      assert FieldDecoded(p, l, frame, base, st.out, st.spans, i);
      assert ChecksumIn(p, l, e, st.spans, k);
      ChecksumValue(p, l, e, frame, base, st, k);
      ChecksumVerifies(p, l, e, frame, base, st, k);
    }
    ChecksumsVerify(p, l, frame, base, st, |e|, |l.checksums|);
  }

  lemma AcceptFrom(p: Protocol, l: Layout, frame: seq<byte>, base: nat, bounded: bool, st: Decoding)
    requires Compiled(p, l) && DecodeFields(p, l, frame, base, |l.fields|) == Ok(st) && |st.spans| == |l.fields|
    requires base + st.offset <= |frame| && st.offset >= l.minimumSize
    requires l.isMessage ==> Slice(frame, base, base + |l.dispatchPrefix|) == l.dispatchPrefix
    requires l.isMessage || bounded ==> base + st.offset == |frame|
    requires VerifyChecksums(p, l, frame, base, st, st.offset, |l.checksums|).Ok?
    ensures DecodeLayout(p, l, frame, base, bounded) == Ok((st.out, st.offset))
  {
  }

  lemma PaddedFrom(p: Protocol, l: Layout, m: Mapping, d: Derived, frame: seq<byte>, base: nat, st: Decoding)
    requires Compiled(p, l) && |st.spans| == |l.fields| && DecodeFields(p, l, frame, base, |l.fields|) == Ok(st)
    requires ReadBack(p, l, m, d, frame, base, st.spans, |l.fields|, st.out)
    ensures ZeroPadded(p, l, frame, base)
  {
    forall i | 0 <= i < |l.fields|
      ensures FieldPadded(p, l, frame, base, st, i)
    {
      assert FieldReadOut(p, l, m, d, frame, base, st.spans, st.out, i);
    }
  }
}
