/** Decoding consumes at least the minimum size, looks at no byte beyond what it consumes, and does
    not depend on where in the frame a struct lies. */
module CodecLocality {
  import opened Prelude
  import opened Bytes
  import opened Metadata
  import opened Codec
  import opened CodecFacts

  // ----- Minimum size -----

  /** The first `n` fields take at least the minimum size the compiler computed for them. */
  lemma FieldsTakeMinimum(p: Protocol, l: Layout, frame: seq<byte>, base: nat, n: nat, st: Decoding)
    requires Compiled(p, l) && n <= |l.fields| && DecodeFields(p, l, frame, base, n) == Ok(st)
    ensures st.offset >= MinimumPrefix(l.fields, n)
    decreases Depth(p, l), 2, n
  {
    if n > 0 {
      var prev := DecodeFields(p, l, frame, base, n - 1).value;
      FieldsTakeMinimum(p, l, frame, base, n - 1, prev);
      StepOf(p, l, frame, base, n - 1, prev, st);
      var f := l.fields[n - 1];
      if !f.Gated() {
        AlignUpMonotone(MinimumPrefix(l.fields, n - 1), prev.offset, f.alignment);
        var start := AlignUp(prev.offset, f.alignment);
        var (v, size) := DecodeValue(p, l, n - 1, frame, base, start, prev.out).value;
        ValueTakesMinimum(p, l, frame, base, start, n - 1, prev.out, v, size);
      }
    }
  }

  lemma ValueTakesMinimum(p: Protocol, l: Layout, frame: seq<byte>, base: nat, offset: nat, i: nat, out: Mapping, v: Value, size: nat)
    requires Compiled(p, l) && i < |l.fields| && DecodeValue(p, l, i, frame, base, offset, out) == Ok((v, size))
    ensures size >= l.fields[i].MinimumContribution()
    decreases Depth(p, l), 1, 0
  {
    assert FieldWellFormed(p, l, i);
    var f := l.fields[i];
    var at := base + offset;
    if f.kind.Nested? {
      NestedIsCompiled(p, l, f, f.structId);
      LayoutTakesMinimum(p, p.structs[f.structId], frame, at, false, v.fields, size);
    } else if f.kind.Collection? {
      NestedIsCompiled(p, l, f, f.structId);
      if !f.dynamicCount {
        ItemsTakeMinimum(p, p.structs[f.structId], frame, at, f.fixedCount, v.items, size);
      }
    } else if f.kind.Variant? {
      var k := FindCase(f.cases, Decoded(l, f.tagFrom, out).value, 0).value;
      assert CaseWellFormed(p, f, k);
      NestedIsCompiled(p, l, f, f.cases[k].structId);
      LayoutTakesMinimum(p, p.structs[f.cases[k].structId], frame, at, false, v.fields, size);
    }
  }

  lemma ItemsTakeMinimum(p: Protocol, e: Layout, frame: seq<byte>, at: nat, n: nat, items: seq<Value>, size: nat)
    requires Compiled(p, e) && DecodeItems(p, e, frame, at, n) == Ok((items, size))
    ensures size >= n * e.minimumSize
    decreases Depth(p, e), 5, n
  {
    if n > 0 {
      var before, s, inner, consumed := LastItem(p, e, frame, at, n);
      ItemsTakeMinimum(p, e, frame, at, n - 1, before, s);
      LayoutTakesMinimum(p, e, frame, at + s, false, inner, consumed);
      OneMoreMultiple(n, e.minimumSize);
    }
  }

  /** Every successful decoding consumes at least the layout's minimum size. */
  lemma LayoutTakesMinimum(p: Protocol, l: Layout, frame: seq<byte>, base: nat, bounded: bool, m: Mapping, consumed: nat)
    requires Compiled(p, l) && DecodeLayout(p, l, frame, base, bounded) == Ok((m, consumed))
    ensures consumed >= l.minimumSize
    decreases Depth(p, l), 4, 0
  {
    FieldsTakeMinimum(p, l, frame, base, |l.fields|, DecodeFields(p, l, frame, base, |l.fields|).value);
  }

  // ----- Locality -----

  /** Two frames hold the same `n` bytes at their respective offsets. */
  ghost predicate SameBytes(f: seq<byte>, a: nat, g: seq<byte>, b: nat, n: nat) {
    a + n <= |f| && b + n <= |g| && f[a..a + n] == g[b..b + n]
  }

  lemma SamePart(f: seq<byte>, a: nat, g: seq<byte>, b: nat, n: nat, from: nat, k: nat)
    requires SameBytes(f, a, g, b, n) && from + k <= n
    ensures SameBytes(f, a + from, g, b + from, k)
  {
    SliceOfSlice(f, a, a + n, from, from + k);
    SliceOfSlice(g, b, b + n, from, from + k);
  }

  lemma LocalFields(p: Protocol, l: Layout, f: seq<byte>, a: nat, g: seq<byte>, b: nat, total: nat, n: nat, st: Decoding)
    requires Compiled(p, l) && n <= |l.fields| && SameBytes(f, a, g, b, total)
    requires DecodeFields(p, l, f, a, n) == Ok(st) && st.offset <= total
    ensures DecodeFields(p, l, g, b, n) == Ok(st)
    decreases Depth(p, l), 3, n
  {
    if n > 0 {
      var prev := DecodeFields(p, l, f, a, n - 1).value;
      StepOf(p, l, f, a, n - 1, prev, st);
      LocalFields(p, l, f, a, g, b, total, n - 1, prev);
      LocalStep(p, l, f, a, g, b, total, n - 1, prev, st);
    }
  }

  lemma LocalStep(p: Protocol, l: Layout, f: seq<byte>, a: nat, g: seq<byte>, b: nat, total: nat, i: nat, prev: Decoding, st: Decoding)
    requires Compiled(p, l) && i < |l.fields| && SameBytes(f, a, g, b, total)
    requires DecodeOne(p, l, f, a, i, prev) == Ok(st) && st.offset <= total
    ensures DecodeOne(p, l, g, b, i, prev) == Ok(st)
    decreases Depth(p, l), 2, 0
  {
    StepOf(p, l, f, a, i, prev, st);
    if Present(l, i, prev.out).value {
      var start := AlignUp(prev.offset, l.fields[i].alignment);
      var (v, size) := DecodeValue(p, l, i, f, a, start, prev.out).value;
      SamePart(f, a, g, b, total, start, size);
      LocalValue(p, l, f, a, g, b, start, i, prev.out, v, size);
      StepPresent(p, l, g, b, i, prev, v, size);
    } else {
      StepAbsent(p, l, g, b, i, prev);
    }
  }

  lemma LocalList(p: Protocol, l: Layout, f: seq<byte>, a: nat, g: seq<byte>, b: nat, offset: nat,
                  i: nat, out: Mapping, v: Value, size: nat)
    requires Compiled(p, l) && i < |l.fields| && l.fields[i].kind.Collection?
    requires DecodeValue(p, l, i, f, a, offset, out) == Ok((v, size)) && SameBytes(f, a + offset, g, b + offset, size)
    ensures DecodeValue(p, l, i, g, b, offset, out) == Ok((v, size))
    decreases Depth(p, l), 0, 0
  {
    assert FieldWellFormed(p, l, i);
    var fld := l.fields[i];
    NestedIsCompiled(p, l, fld, fld.structId);
    var count := if fld.dynamicCount then Decoded(l, fld.countFrom, out).value else fld.fixedCount;
    LocalCollection(p, p.structs[fld.structId], f, a + offset, g, b + offset, count, v.items, size);
  }

  lemma LocalVariant(p: Protocol, l: Layout, f: seq<byte>, a: nat, g: seq<byte>, b: nat, offset: nat,
                     i: nat, out: Mapping, v: Value, size: nat)
    requires Compiled(p, l) && i < |l.fields| && l.fields[i].kind.Variant?
    requires DecodeValue(p, l, i, f, a, offset, out) == Ok((v, size)) && SameBytes(f, a + offset, g, b + offset, size)
    ensures DecodeValue(p, l, i, g, b, offset, out) == Ok((v, size))
    decreases Depth(p, l), 0, 0
  {
    assert FieldWellFormed(p, l, i);
    var fld := l.fields[i];
    var k := FindCase(fld.cases, Decoded(l, fld.tagFrom, out).value, 0).value;
    assert CaseWellFormed(p, fld, k);
    NestedIsCompiled(p, l, fld, fld.cases[k].structId);
    LocalLayout(p, p.structs[fld.cases[k].structId], f, a + offset, g, b + offset, v.fields, size);
  }

  lemma LocalValue(p: Protocol, l: Layout, f: seq<byte>, a: nat, g: seq<byte>, b: nat, offset: nat,
                   i: nat, out: Mapping, v: Value, size: nat)
    requires Compiled(p, l) && i < |l.fields|
    requires DecodeValue(p, l, i, f, a, offset, out) == Ok((v, size)) && SameBytes(f, a + offset, g, b + offset, size)
    ensures DecodeValue(p, l, i, g, b, offset, out) == Ok((v, size))
    decreases Depth(p, l), 1, 0
  {
    assert FieldWellFormed(p, l, i);
    var fld := l.fields[i];
    var x, y := a + offset, b + offset;
    if fld.kind.Nested? {
      NestedIsCompiled(p, l, fld, fld.structId);
      LocalLayout(p, p.structs[fld.structId], f, x, g, y, v.fields, size);
    } else if fld.kind.Collection? {
      LocalList(p, l, f, a, g, b, offset, i, out, v, size);
    } else if fld.kind.Variant? {
      LocalVariant(p, l, f, a, g, b, offset, i, out, v, size);
    }
  }

  lemma LocalCollection(p: Protocol, e: Layout, f: seq<byte>, x: nat, g: seq<byte>, y: nat, n: nat, items: seq<Value>, size: nat)
    requires Compiled(p, e) && !e.isMessage && e.minimumSize > 0
    requires DecodeItems(p, e, f, x, n) == Ok((items, size)) && SameBytes(f, x, g, y, size)
    ensures n <= (|g| - y) / e.minimumSize
    ensures DecodeItems(p, e, g, y, n) == Ok((items, size))
    decreases Depth(p, e), 6, n
  {
    ItemsTakeMinimum(p, e, f, x, n, items, size);
    QuotientAtLeast(|g| - y, e.minimumSize, n);
    LocalItems(p, e, f, x, g, y, n, items, size);
  }

  /** `n` elements decode from the given `size` bytes, which both frames hold. */
  ghost predicate SameItems(p: Protocol, e: Layout, f: seq<byte>, x: nat, g: seq<byte>, y: nat, n: nat, items: seq<Value>, size: nat)
    requires Compiled(p, e)
  {
    DecodeItems(p, e, f, x, n) == Ok((items, size)) && SameBytes(f, x, g, y, size)
  }

  lemma LocalItems(p: Protocol, e: Layout, f: seq<byte>, x: nat, g: seq<byte>, y: nat, n: nat, items: seq<Value>, size: nat)
    requires Compiled(p, e) && !e.isMessage && SameItems(p, e, f, x, g, y, n, items, size)
    ensures SameItems(p, e, g, y, f, x, n, items, size)
    decreases Depth(p, e), 5, n
  {
    if n > 0 {
      var before, s, inner, consumed := LocalLast(p, e, f, x, g, y, n, items, size);
      LocalItems(p, e, f, x, g, y, n - 1, before, s);
      OneMoreItem(p, e, g, y, n, before, s, inner, consumed);
    }
  }

  lemma LocalLast(p: Protocol, e: Layout, f: seq<byte>, x: nat, g: seq<byte>, y: nat, n: nat, items: seq<Value>, size: nat)
    returns (before: seq<Value>, s: nat, inner: Mapping, consumed: nat)
    requires Compiled(p, e) && !e.isMessage && n > 0 && SameItems(p, e, f, x, g, y, n, items, size)
    ensures SameItems(p, e, f, x, g, y, n - 1, before, s)
    ensures items == before + [Rec(inner)] && size == s + consumed && consumed > 0 && y + size <= |g|
    ensures DecodeLayout(p, e, g, y + s, false) == Ok((inner, consumed))
    decreases Depth(p, e), 4, 1
  {
    before, s, inner, consumed := LastItem(p, e, f, x, n);
    SamePart(f, x, g, y, size, 0, s);
    SamePart(f, x, g, y, size, s, consumed);
    LocalLayout(p, e, f, x + s, g, y + s, inner, consumed);
  }

  lemma OneMoreItem(p: Protocol, e: Layout, frame: seq<byte>, at: nat, n: nat,
                    before: seq<Value>, size: nat, inner: Mapping, consumed: nat)
    requires Compiled(p, e) && n > 0 && at + size <= |frame| && consumed > 0
    requires DecodeItems(p, e, frame, at, n - 1) == Ok((before, size))
    requires DecodeLayout(p, e, frame, at + size, false) == Ok((inner, consumed))
    ensures DecodeItems(p, e, frame, at, n) == Ok((before + [Rec(inner)], size + consumed))
  {
  }

  /** A struct decodes to the same value and size wherever its bytes lie and whatever follows them. */
  lemma LocalLayout(p: Protocol, l: Layout, f: seq<byte>, a: nat, g: seq<byte>, b: nat, m: Mapping, consumed: nat)
    requires Compiled(p, l) && !l.isMessage
    requires DecodeLayout(p, l, f, a, false) == Ok((m, consumed)) && SameBytes(f, a, g, b, consumed)
    ensures DecodeLayout(p, l, g, b, false) == Ok((m, consumed))
    decreases Depth(p, l), 4, 0
  {
    var n := |l.fields|;
    LayoutTakesMinimum(p, l, f, a, false, m, consumed);
    var st := DecodeFields(p, l, f, a, n).value;
    LocalFields(p, l, f, a, g, b, consumed, n, st);
    LocalChecksums(p, l, f, a, g, b, st, |l.checksums|);
  }

  lemma {:induction false} LocalChecksums(p: Protocol, l: Layout, f: seq<byte>, a: nat, g: seq<byte>, b: nat, st: Decoding, n: nat)
    requires ChecksumsWellFormed(l) && |st.spans| == |l.fields| && n <= |l.checksums|
    requires SameBytes(f, a, g, b, st.offset)
    requires VerifyChecksums(p, l, f, a, st, st.offset, n).Ok?
    ensures VerifyChecksums(p, l, g, b, st, st.offset, n).Ok?
    decreases n
  {
    if n > 0 {
      LocalChecksums(p, l, f, a, g, b, st, n - 1);
      LocalChecksum(p, l, f, a, g, b, st, n - 1);
    }
  }

  lemma LocalChecksum(p: Protocol, l: Layout, f: seq<byte>, a: nat, g: seq<byte>, b: nat, st: Decoding, k: nat)
    requires ChecksumsWellFormed(l) && |st.spans| == |l.fields| && k < |l.checksums|
    requires SameBytes(f, a, g, b, st.offset)
    ensures ChecksumWellFormed(l, k)
    ensures VerifyOne(p, l, k, f, a, st, st.offset) == VerifyOne(p, l, k, g, b, st, st.offset)
  {
    assert ChecksumWellFormed(l, k);
    var c := l.checksums[k];
    var from, to := AnchorOffset(c.from, st.spans, st.offset), AnchorOffset(c.to, st.spans, st.offset);
    if from <= to <= st.offset {
      SamePart(f, a, g, b, st.offset, from, to - from);
      assert Slice(f, a + from, a + to) == f[a + from..a + to];
      assert Slice(g, b + from, b + to) == g[b + from..b + to];
    }
  }

  // ----- Sequences of records -----

  ghost function Concat(chunks: seq<seq<byte>>): (s: seq<byte>) {
    if chunks == [] then [] else chunks[0] + Concat(chunks[1..])
  }

  /** `chunk` is a non-empty encoding that decodes, on its own and in full, to `m`. */
  ghost predicate IsRecord(p: Protocol, l: Layout, chunk: seq<byte>, m: Mapping)
    requires Compiled(p, l)
  {
    chunk != [] && DecodeLayout(p, l, chunk, 0, false) == Ok((m, |chunk|))
  }

  ghost predicate AreRecords(p: Protocol, l: Layout, chunks: seq<seq<byte>>, ms: seq<Mapping>)
    requires Compiled(p, l)
  {
    |chunks| == |ms| && forall i | 0 <= i < |ms| :: IsRecord(p, l, chunks[i], ms[i])
  }

  /** The frame from `offset` on is made of exactly these chunks, which are records. */
  ghost predicate IsMadeOf(p: Protocol, l: Layout, frame: seq<byte>, offset: nat, chunks: seq<seq<byte>>, ms: seq<Mapping>)
    requires Compiled(p, l)
  {
    offset <= |frame| && frame[offset..] == Concat(chunks) && AreRecords(p, l, chunks, ms)
  }

  /** Concatenated record encodings decode to exactly the list of records. */
  lemma {:induction false} SequenceOfRecords(p: Protocol, l: Layout, frame: seq<byte>, offset: nat,
                                             chunks: seq<seq<byte>>, ms: seq<Mapping>)
    requires Compiled(p, l) && !l.isMessage && IsMadeOf(p, l, frame, offset, chunks, ms)
    ensures DecodeSequence(p, l, frame, offset) == Ok(ms)
    decreases |chunks|
  {
    if chunks == [] {
      NoRecords(p, l, frame, offset, ms);
    } else {
      var n := |chunks[0]|;
      FirstRecord(p, l, frame, offset, chunks, ms);
      SequenceOfRecords(p, l, frame, offset + n, chunks[1..], ms[1..]);
      OneMoreRecord(p, l, frame, offset, ms, n);
    }
  }

  lemma NoRecords(p: Protocol, l: Layout, frame: seq<byte>, offset: nat, ms: seq<Mapping>)
    requires Compiled(p, l) && IsMadeOf(p, l, frame, offset, [], ms)
    ensures DecodeSequence(p, l, frame, offset) == Ok(ms)
  {
  }

  lemma FirstRecord(p: Protocol, l: Layout, frame: seq<byte>, offset: nat, chunks: seq<seq<byte>>, ms: seq<Mapping>)
    requires Compiled(p, l) && !l.isMessage && chunks != [] && IsMadeOf(p, l, frame, offset, chunks, ms)
    ensures 0 < |chunks[0]| <= |frame| - offset && |ms| == |chunks|
    ensures DecodeLayout(p, l, frame, offset, false) == Ok((ms[0], |chunks[0]|))
    ensures IsMadeOf(p, l, frame, offset + |chunks[0]|, chunks[1..], ms[1..])
  {
    assert IsRecord(p, l, chunks[0], ms[0]);
    ChunkAtFront(frame, offset, chunks);
    LocalLayout(p, l, chunks[0], 0, frame, offset, ms[0], |chunks[0]|);
    TailRecords(p, l, chunks, ms);
  }

  lemma OneMoreRecord(p: Protocol, l: Layout, frame: seq<byte>, offset: nat, ms: seq<Mapping>, n: nat)
    requires Compiled(p, l) && offset < |frame| && n > 0 && ms != []
    requires DecodeLayout(p, l, frame, offset, false) == Ok((ms[0], n)) && DecodeSequence(p, l, frame, offset + n) == Ok(ms[1..])
    ensures DecodeSequence(p, l, frame, offset) == Ok(ms)
  {
    assert ms == [ms[0]] + ms[1..];
  }

  lemma ChunkAtFront(frame: seq<byte>, offset: nat, chunks: seq<seq<byte>>)
    requires chunks != [] && offset <= |frame| && frame[offset..] == Concat(chunks)
    ensures SameBytes(chunks[0], 0, frame, offset, |chunks[0]|)
    ensures frame[offset + |chunks[0]|..] == Concat(chunks[1..])
  {
    var n := |chunks[0]|;
    assert frame[offset..][..n] == chunks[0] && frame[offset..][n..] == Concat(chunks[1..]);
    assert frame[offset..offset + n] == frame[offset..][..n];
    assert frame[offset + n..] == frame[offset..][n..];
    assert chunks[0][0..n] == chunks[0];
  }

  lemma TailRecords(p: Protocol, l: Layout, chunks: seq<seq<byte>>, ms: seq<Mapping>)
    requires Compiled(p, l) && AreRecords(p, l, chunks, ms) && chunks != []
    ensures AreRecords(p, l, chunks[1..], ms[1..])
  {
    forall i | 0 <= i < |ms| - 1
      ensures IsRecord(p, l, chunks[1..][i], ms[1..][i])
    {
      assert IsRecord(p, l, chunks[i + 1], ms[i + 1]);
    }
  }

  lemma RecordInFront(p: Protocol, l: Layout, chunk: seq<byte>, rest: seq<seq<byte>>, ms: seq<Mapping>)
    requires Compiled(p, l) && ms != [] && IsRecord(p, l, chunk, ms[0]) && AreRecords(p, l, rest, ms[1..])
    ensures AreRecords(p, l, [chunk] + rest, ms)
  {
    var chunks := [chunk] + rest;
    forall i | 0 <= i < |ms|
      ensures IsRecord(p, l, chunks[i], ms[i])
    {
      if i > 0 {
        assert IsRecord(p, l, rest[i - 1], ms[1..][i - 1]);
      }
    }
  }

  /** Conversely, what a sequence decodes to splits the frame into the encodings of its records. */
  lemma {:induction false} RecordsOfSequence(p: Protocol, l: Layout, frame: seq<byte>, offset: nat, ms: seq<Mapping>)
    returns (chunks: seq<seq<byte>>)
    requires Compiled(p, l) && !l.isMessage && offset <= |frame|
    requires DecodeSequence(p, l, frame, offset) == Ok(ms)
    ensures AreRecords(p, l, chunks, ms) && frame[offset..] == Concat(chunks)
    decreases |frame| - offset
  {
    if offset == |frame| {
      chunks := [];
    } else {
      var (m, n) := DecodeLayout(p, l, frame, offset, false).value;
      var rest := RecordsOfSequence(p, l, frame, offset + n, ms[1..]);
      var chunk := frame[offset..offset + n];
      assert chunk[0..n] == chunk;
      LocalLayout(p, l, frame, offset, chunk, 0, m, n);
      chunks := [chunk] + rest;
      RecordInFront(p, l, chunk, rest, ms);
      assert chunks[1..] == rest;
      assert frame[offset..] == chunk + frame[offset + n..];
    }
  }
}
