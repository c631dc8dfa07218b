/** Inputs on which the codec's natural laws fail. */
module CodecLimits {
  import opened Prelude
  import opened Bytes
  import opened Metadata
  import opened Codec
  import opened CodecFacts
  import opened CodecReencode
  import Checksums

  /** A one-byte counter. */
  function ByteField(): Field {
    Field(0, Name("sum"), Unsigned, 1, LittleEndian, Ascii, 0, false, 0, 0, 1, false, 0, 0, false, 0,
          false, 0, 0, false, 0, 0, 0, [], false, 0)
  }

  /** A struct that is one byte long and carries a checksum over all of itself. */
  function SelfCovering(): Layout {
    Layout(false, 1, true, false, [], [ByteField()], [Checksum(0, "xor8", Anchor(FrameStart, 0), Anchor(FrameEnd, 0))])
  }

  /** The built-in checksums and no structs. */
  function BuiltIn(): Protocol {
    Protocol([], Checksums.Compute)
  }

  lemma SelfCoveringCompiles(p: Protocol, l: Layout)
    requires p == BuiltIn() && l == SelfCovering()
    ensures Compiled(p, l) && FieldWellFormed(p, l, 0) && ChecksumWellFormed(l, 0)
  {
    assert |p.structs| == 0;
    forall f | f in l.fields
      ensures References(f) == {}
    {
      assert f == ByteField();
    }
    assert NestsWithin(p, l, 0);
    assert ChecksumWellFormed(l, 0);
    assert FieldWellFormed(p, l, 0);
    assert MinimumPrefix(l.fields, 0) == 0;
  }

  lemma OneByte(b: byte, f: Field)
    requires f == ByteField()
    ensures ReadScalar(f, [b]) == Num(b) && Pow256(1) == 256 && ToBytes(b, 1, LittleEndian) == [b]
  {
    assert LittleValue([b][1..]) == 0;
    assert LittleBytes(0, 0) == [];
  }

  lemma OneField(p: Protocol, l: Layout, frame: seq<byte>, prev: Decoding, st: Decoding)
    requires Compiled(p, l) && |l.fields| == 1
    requires DecodeFields(p, l, frame, 0, 0) == Ok(prev) && DecodeOne(p, l, frame, 0, 0, prev) == Ok(st)
    ensures DecodeFields(p, l, frame, 0, |l.fields|) == Ok(st)
  {
  }

  lemma OnePiece(p: Protocol, l: Layout, m: Mapping, d: Derived, piece: Piece)
    requires Compiled(p, l) && |l.fields| == 1 && PieceOf(p, l, m, d, 0) == Ok(piece)
    ensures EncodeFields(p, l, m, d, |l.fields|) == Ok(Append(Written([], []), piece))
  {
    assert EncodeFields(p, l, m, d, 0) == Ok(Written([], []));
  }

  lemma DecodeSelfCovering(p: Protocol, l: Layout, frame: seq<byte>, b: byte, m: Mapping)
    requires p == BuiltIn() && l == SelfCovering() && frame == [b] && Compiled(p, l) && m == map[ByteField().name := Num(b)]
    ensures DecodeLayout(p, l, frame, 0, true) == Ok((m, 1)) && ZeroPadded(p, l, frame, 0)
  {
    SelfCoveringCompiles(p, l);
    OneByte(b, l.fields[0]);
    Checksums.Xor8OfSingle(b, 8);
    assert frame[0..1] == frame;
    var prev, st := Decoding(map[], 0, []), Decoding(m, 1, [Span(0, 1)]);
    assert DecodeScalar(l.fields[0], frame, 0) == Ok((Num(b), 1));
    StepPresent(p, l, frame, 0, 0, prev, Num(b), 1);
    assert DecodeFields(p, l, frame, 0, 0) == Ok(prev);
    assert prev.out[l.fields[0].name := Num(b)] == m && prev.spans + [Span(0, 1)] == st.spans;
    OneField(p, l, frame, prev, st);
    assert VerifyOne(p, l, 0, frame, 0, st, 1) == Ok(());
    assert VerifyChecksums(p, l, frame, 0, st, 1, 0) == Ok(());
    assert FieldPadded(p, l, frame, 0, st, 0);
  }

  lemma DeriveNothing(p: Protocol, l: Layout, m: Mapping)
    requires l == SelfCovering() && LayoutWellFormed(p, l)
    ensures Derive(p, l, m, |l.fields|) == Ok(Derived(map[], map[]))
  {
    assert Derive(p, l, m, 0) == Ok(Derived(map[], map[]));
  }

  lemma ZeroPiece(p: Protocol, l: Layout, m: Mapping, zero: byte)
    requires l == SelfCovering() && Compiled(p, l) && zero == 0
    ensures EncodeFields(p, l, m, Derived(map[], map[]), |l.fields|) == Ok(Written([zero], [Span(0, 1)]))
  {
    assert l.checksums[0] in l.checksums && IsChecksumField(l, 0);
    assert Repeat(0, 1) == [zero];
    assert PieceOf(p, l, m, Derived(map[], map[]), 0) == Ok(Put(1, [zero]));
    OnePiece(p, l, m, Derived(map[], map[]), Put(1, [zero]));
    assert Append(Written([], []), Put(1, [zero])) == Written([zero], [Span(0, 1)]);
  }

  lemma PatchZero(p: Protocol, l: Layout, zero: byte)
    requires p == BuiltIn() && l == SelfCovering() && ChecksumsWellFormed(l) && zero == 0
    ensures PatchChecksums(p, l, Written([zero], [Span(0, 1)]), |l.checksums|) == Ok([zero])
  {
    assert ChecksumWellFormed(l, 0);
    OneByte(zero, l.fields[0]);
    Checksums.Xor8OfSingle(zero, 8);
    assert Slice([zero], 0, 1) == [zero];
    assert PatchChecksums(p, l, Written([zero], [Span(0, 1)]), 0) == Ok([zero]);
    var spans := [Span(0, 1)];
    var c := l.checksums[0];
    assert AnchorOffset(c.from, spans, 1) == 0 && AnchorOffset(c.to, spans, 1) == 1;
    assert p.registry(c.algorithm, [zero]) == Some(0);
    assert Patch([zero], 0, [zero]) == [zero];
    assert PatchOne(p, l, 0, spans, [zero]) == Ok([zero]);
  }

  lemma EncodeSelfCovering(p: Protocol, l: Layout, m: Mapping)
    requires p == BuiltIn() && l == SelfCovering() && Compiled(p, l)
    ensures EncodeLayout(p, l, m) == Ok([0])
  {
    DeriveNothing(p, l, m);
    ZeroPiece(p, l, m, 0);
    PatchZero(p, l, 0);
    EncodeFrom(p, l, m, Derived(map[], map[]), Written([0], [Span(0, 1)]));
  }

  /** Re-encoding can change a zero-padded frame: the decoder accepts an exclusive or that covers its own
      field, while the encoder computes it over that field still zero. */
  lemma SelfCoverChangesFrame(p: Protocol, l: Layout) returns (frame: seq<byte>, m: Mapping)
    requires p == BuiltIn() && l == SelfCovering()
    ensures Compiled(p, l) && !AllSettled(p, l)
    ensures DecodeLayout(p, l, frame, 0, true) == Ok((m, |frame|)) && ZeroPadded(p, l, frame, 0)
    ensures EncodeLayout(p, l, m).Ok? && EncodeLayout(p, l, m).value != frame
  {
    SelfCoveringCompiles(p, l);
    frame, m := [5], map[ByteField().name := Num(5)];
    DecodeSelfCovering(p, l, frame, 5, m);
    EncodeSelfCovering(p, l, m);
    assert !Spares(l, 0, 0);
  }
}
