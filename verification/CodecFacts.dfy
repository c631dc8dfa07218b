/** How the field-by-field loops of the codec relate to the layout as a whole. */
module CodecFacts {
  import opened Prelude
  import opened Bytes
  import opened Metadata
  import opened Codec
  import Utf8

  // ----- Scalars and texts are inverse pairs -----

  lemma EncodeReadScalar(f: Field, s: seq<byte>)
    requires f.Scalar() && |s| == f.width
    ensures EncodeScalar(f, ReadScalar(f, s)) == Ok(s)
  {
    WriteRead(s, f.order);
  }

  lemma ReadEncodedScalar(f: Field, v: Value)
    requires f.Scalar() && EncodeScalar(f, v).Ok?
    ensures ReadScalar(f, EncodeScalar(f, v).value) == v
  {
    match v
    case Num(n) =>
      if f.kind.Signed? {
        ReadWritten(FromSigned(n, f.width), f.width, f.order);
      } else {
        ReadWritten(n, f.width, f.order);
      }
    case Flt(raw) => ReadWritten(raw, f.width, f.order);
    case _ =>
  }

  lemma EncodeDecodedText(encoding: TextEncoding, s: seq<byte>)
    requires DecodeText(encoding, s).Some?
    ensures EncodeText(encoding, DecodeText(encoding, s).value) == Some(s)
  {
    if encoding.Utf8? {
      Utf8.EncodeDecoded(s);
    } else {
      assert EncodeText(encoding, DecodeText(encoding, s).value).value == s;
    }
  }

  // ----- Spans -----

  /** Where the span before field `i` ends. */
  function Before(spans: seq<Span>, i: nat): nat
    requires i <= |spans|
  {
    if i == 0 then 0 else spans[i - 1].end
  }

  /** Span `i` is proper and ends before span `j` starts. */
  ghost predicate Precedes(spans: seq<Span>, i: nat, j: nat)
    requires i < |spans| && j < |spans|
  {
    spans[i].start <= spans[i].end && (i < j ==> spans[i].end <= spans[j].start)
  }

  ghost predicate Ordered(spans: seq<Span>) {
    forall i, j | 0 <= i <= j < |spans| :: Precedes(spans, i, j)
  }

  lemma OrderedEnds(spans: seq<Span>, i: nat)
    requires Ordered(spans) && i < |spans|
    ensures spans[i].start <= spans[i].end <= spans[|spans| - 1].end
    ensures Before(spans, i) <= spans[i].start
  {
    assert Precedes(spans, i, i);
    assert Precedes(spans, i, |spans| - 1);
    assert Precedes(spans, |spans| - 1, |spans| - 1);
    if i > 0 {
      assert Precedes(spans, i - 1, i);
    }
  }

  // ----- Decoding, seen all at once -----

  /** `m` and `spans` are what decoding the first `n` fields at `base` yields, field by field. */
  ghost predicate FieldDecoded(p: Protocol, l: Layout, frame: seq<byte>, base: nat, m: Mapping, spans: seq<Span>, i: nat)
    requires Compiled(p, l) && i < |l.fields| && i < |spans|
  {
    assert FieldWellFormed(p, l, i);
    var f := l.fields[i];
    match Present(l, i, m)
    case None => false
    case Some(false) => f.name !in m && spans[i] == Span(Before(spans, i), Before(spans, i))
    case Some(true) =>
      && f.name in m
      && spans[i].start == AlignUp(Before(spans, i), f.alignment)
      && spans[i].start <= spans[i].end
      && DecodeValue(p, l, i, frame, base, spans[i].start, m) == Ok((m[f.name], spans[i].end - spans[i].start))
  }

  ghost predicate Agree(l: Layout, m: Mapping, m': Mapping, n: nat)
    requires n <= |l.fields|
  {
    forall k | 0 <= k < n ::
      && (l.fields[k].name in m <==> l.fields[k].name in m')
      && (l.fields[k].name in m ==> m[l.fields[k].name] == m'[l.fields[k].name])
  }

  ghost predicate OnlyNames(l: Layout, m: Mapping, n: nat)
    requires n <= |l.fields|
  {
    forall name | name in m :: exists k :: 0 <= k < n && l.fields[k].name == name
  }

  /** Presence and decoding of field `i` consult only fields before it. */
  lemma OnlyEarlierFieldsMatter(p: Protocol, l: Layout, frame: seq<byte>, base: nat, offset: nat, i: nat, m: Mapping, m': Mapping)
    requires Compiled(p, l) && i < |l.fields| && Agree(l, m, m', i)
    ensures FieldWellFormed(p, l, i)
    ensures Present(l, i, m) == Present(l, i, m')
    ensures DecodeValue(p, l, i, frame, base, offset, m) == DecodeValue(p, l, i, frame, base, offset, m')
  {
    assert FieldWellFormed(p, l, i);
    var f := l.fields[i];
    if f.dynamicSize {
      assert Decoded(l, f.sizeFrom, m) == Decoded(l, f.sizeFrom, m');
    }
    if f.dynamicCount {
      assert Decoded(l, f.countFrom, m) == Decoded(l, f.countFrom, m');
    }
    if f.kind.Variant? {
      assert Decoded(l, f.tagFrom, m) == Decoded(l, f.tagFrom, m');
    }
  }

  /** What is known of field `i` stays known as later fields are added. */
  lemma FieldStaysDecoded(p: Protocol, l: Layout, frame: seq<byte>, base: nat,
                          m: Mapping, spans: seq<Span>, m': Mapping, spans': seq<Span>, i: nat)
    requires Compiled(p, l) && i < |l.fields| && i < |spans| && i < |spans'|
    requires FieldDecoded(p, l, frame, base, m, spans, i)
    requires Agree(l, m, m', i + 1) && spans[..i + 1] == spans'[..i + 1]
    ensures FieldDecoded(p, l, frame, base, m', spans', i)
  {
    assert spans[i] == spans[..i + 1][i] == spans'[..i + 1][i] == spans'[i];
    if i > 0 {
      assert spans[i - 1] == spans[..i + 1][i - 1] == spans'[..i + 1][i - 1] == spans'[i - 1];
    }
    OnlyEarlierFieldsMatter(p, l, frame, base, spans[i].start, i, m, m');
  }

  lemma EarlierFieldsStayDecoded(p: Protocol, l: Layout, frame: seq<byte>, base: nat, n: nat, prev: Decoding, st: Decoding)
    requires Compiled(p, l) && n <= |l.fields| && |prev.spans| == n <= |st.spans|
    requires Agree(l, prev.out, st.out, n) && st.spans[..n] == prev.spans
    requires forall i | 0 <= i < n :: FieldDecoded(p, l, frame, base, prev.out, prev.spans, i)
    ensures forall i | 0 <= i < n :: FieldDecoded(p, l, frame, base, st.out, st.spans, i)
  {
    forall i | 0 <= i < n
      ensures FieldDecoded(p, l, frame, base, st.out, st.spans, i)
    {
      assert FieldDecoded(p, l, frame, base, prev.out, prev.spans, i);
      assert prev.spans[..i + 1] == st.spans[..n][..i + 1] == st.spans[..i + 1];
      FieldStaysDecoded(p, l, frame, base, prev.out, prev.spans, st.out, st.spans, i);
    }
  }

  lemma DecodeFieldsGrow(p: Protocol, l: Layout, frame: seq<byte>, base: nat, n: nat, prev: Decoding, st: Decoding)
    requires Compiled(p, l) && n < |l.fields| && |prev.spans| == n
    requires prev.offset == Before(prev.spans, n) && OnlyNames(l, prev.out, n)
    requires forall i | 0 <= i < n :: FieldDecoded(p, l, frame, base, prev.out, prev.spans, i)
    requires DecodeOne(p, l, frame, base, n, prev) == Ok(st)
    ensures |st.spans| == n + 1 && st.offset == Before(st.spans, n + 1) && OnlyNames(l, st.out, n + 1)
    ensures forall i | 0 <= i < n + 1 :: FieldDecoded(p, l, frame, base, st.out, st.spans, i)
  {
    LastFieldDecoded(p, l, frame, base, n, prev, st);
    EarlierFieldsStayDecoded(p, l, frame, base, n, prev, st);
  }

  lemma {:induction false} DecodeFieldsFlat(p: Protocol, l: Layout, frame: seq<byte>, base: nat, n: nat)
    requires Compiled(p, l) && n <= |l.fields|
    requires DecodeFields(p, l, frame, base, n).Ok?
    ensures var st := DecodeFields(p, l, frame, base, n).value;
            && st.offset == Before(st.spans, n)
            && OnlyNames(l, st.out, n)
            && forall i | 0 <= i < n :: FieldDecoded(p, l, frame, base, st.out, st.spans, i)
    decreases n
  {
    if n > 0 {
      DecodeFieldsFlat(p, l, frame, base, n - 1);
      var prev := DecodeFields(p, l, frame, base, n - 1).value;
      var st := DecodeFields(p, l, frame, base, n).value;
      DecodeFieldsGrow(p, l, frame, base, n - 1, prev, st);
    }
  }

  /** The step of one field, with its parts named. */
  lemma StepOf(p: Protocol, l: Layout, frame: seq<byte>, base: nat, i: nat, prev: Decoding, st: Decoding)
    requires Compiled(p, l) && i < |l.fields|
    requires DecodeOne(p, l, frame, base, i, prev) == Ok(st)
    ensures FieldWellFormed(p, l, i) && Present(l, i, prev.out).Some?
    ensures !Present(l, i, prev.out).value ==> st == Decoding(prev.out, prev.offset, prev.spans + [Span(prev.offset, prev.offset)])
    ensures Present(l, i, prev.out).value ==>
              var start := AlignUp(prev.offset, l.fields[i].alignment);
              var r := DecodeValue(p, l, i, frame, base, start, prev.out);
              && r.Ok?
              && st == Decoding(prev.out[l.fields[i].name := r.value.0], start + r.value.1,
                                prev.spans + [Span(start, start + r.value.1)])
  {
  }

  /** The converse of `StepOf`: a present field that decodes extends the decoding. */
  lemma StepPresent(p: Protocol, l: Layout, frame: seq<byte>, base: nat, i: nat, prev: Decoding, v: Value, size: nat)
    requires Compiled(p, l) && i < |l.fields| && Present(l, i, prev.out) == Some(true)
    requires DecodeValue(p, l, i, frame, base, AlignUp(prev.offset, l.fields[i].alignment), prev.out) == Ok((v, size))
    ensures var start := AlignUp(prev.offset, l.fields[i].alignment);
            DecodeOne(p, l, frame, base, i, prev)
            == Ok(Decoding(prev.out[l.fields[i].name := v], start + size, prev.spans + [Span(start, start + size)]))
  {
  }

  lemma StepAbsent(p: Protocol, l: Layout, frame: seq<byte>, base: nat, i: nat, prev: Decoding)
    requires Compiled(p, l) && i < |l.fields| && Present(l, i, prev.out) == Some(false)
    ensures DecodeOne(p, l, frame, base, i, prev)
            == Ok(Decoding(prev.out, prev.offset, prev.spans + [Span(prev.offset, prev.offset)]))
  {
  }

  lemma AddedNames(l: Layout, m: Mapping, i: nat, m': Mapping)
    requires NamesDistinct(l.fields) && i < |l.fields| && OnlyNames(l, m, i)
    requires m' == m || (m'.Keys == m.Keys + {l.fields[i].name} && forall x | x in m && x != l.fields[i].name :: m'[x] == m[x])
    ensures l.fields[i].name !in m && Agree(l, m, m', i) && OnlyNames(l, m', i + 1)
  {
    forall k | 0 <= k < i
      ensures l.fields[k].name != l.fields[i].name
    {
      assert NamesDiffer(l.fields, k, i);
    }
    forall name | name in m'
      ensures exists k :: 0 <= k < i + 1 && l.fields[k].name == name
    {
      if name in m {
        var k :| 0 <= k < i && l.fields[k].name == name;
      } else {
        assert l.fields[i].name == name;
      }
    }
  }

  lemma LastFieldDecoded(p: Protocol, l: Layout, frame: seq<byte>, base: nat, i: nat, prev: Decoding, st: Decoding)
    requires Compiled(p, l) && i < |l.fields| && |prev.spans| == i
    requires prev.offset == Before(prev.spans, i) && OnlyNames(l, prev.out, i)
    requires DecodeOne(p, l, frame, base, i, prev) == Ok(st)
    ensures Agree(l, prev.out, st.out, i) && OnlyNames(l, st.out, i + 1)
    ensures |st.spans| == i + 1 && st.spans[..i] == prev.spans && st.offset == Before(st.spans, i + 1)
    ensures FieldDecoded(p, l, frame, base, st.out, st.spans, i)
  {
    StepOf(p, l, frame, base, i, prev, st);
    AddedNames(l, prev.out, i, st.out);
    OnlyEarlierFieldsMatter(p, l, frame, base, AlignUp(prev.offset, l.fields[i].alignment), i, prev.out, st.out);
  }

  lemma {:induction false} FlatIsOrdered(p: Protocol, l: Layout, frame: seq<byte>, base: nat, m: Mapping, spans: seq<Span>, n: nat)
    requires Compiled(p, l) && n <= |l.fields| && n <= |spans|
    requires forall i | 0 <= i < n :: FieldDecoded(p, l, frame, base, m, spans, i)
    ensures Ordered(spans[..n])
  {
    if n > 0 {
      FlatIsOrdered(p, l, frame, base, m, spans, n - 1);
      assert FieldDecoded(p, l, frame, base, m, spans, n - 1);
      ExtendOrdered(spans, n - 1);
    }
  }

  lemma ExtendOrdered(spans: seq<Span>, n: nat)
    requires n < |spans| && Ordered(spans[..n])
    requires Before(spans, n) <= spans[n].start <= spans[n].end
    ensures Ordered(spans[..n + 1])
  {
    var longer := spans[..n + 1];
    forall i, j | 0 <= i <= j < |longer|
      ensures Precedes(longer, i, j)
    {
      if j < n {
        assert Precedes(spans[..n], i, j);
      } else if i < n {
        OrderedEnds(spans[..n], i);
      }
    }
  }

  // ----- Collections -----

  lemma LastItem(p: Protocol, e: Layout, frame: seq<byte>, at: nat, n: nat)
    returns (before: seq<Value>, size: nat, inner: Mapping, consumed: nat)
    requires Compiled(p, e) && n > 0 && DecodeItems(p, e, frame, at, n).Ok?
    ensures DecodeItems(p, e, frame, at, n - 1) == Ok((before, size))
    ensures DecodeLayout(p, e, frame, at + size, false) == Ok((inner, consumed)) && consumed > 0 && at + size <= |frame|
    ensures DecodeItems(p, e, frame, at, n).value == (before + [Rec(inner)], size + consumed)
  {
    before, size := DecodeItems(p, e, frame, at, n - 1).value.0, DecodeItems(p, e, frame, at, n - 1).value.1;
    var r := DecodeLayout(p, e, frame, at + size, false).value;
    inner, consumed := r.0, r.1;
  }
}
