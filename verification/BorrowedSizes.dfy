/** Accepted frames are as large as the compiler says, struct decoding is local, and the views into an
    accepted message never fail. */
module BorrowedSizes {
  import opened Prelude
  import opened Bytes
  import opened Metadata
  import opened SchemaLayouts
  import opened BorrowedDecoder

  // ----- One step -----

  /** The step of one field, with its parts named. */
  lemma StepOf(p: Protocol, l: Layout, frame: seq<byte>, i: nat, slots: seq<Slot>, offset: nat, r: Outcome)
    requires Compiled(p, l) && i < |l.fields| && AssignField(p, l, frame, i, slots, offset) == r && r.Accepted?
    ensures |r.slots| == |slots| + 1 && r.slots[..|slots|] == slots
    ensures !IsPresent(l, slots, l.fields[i]) ==> r == Accepted(slots + [Slot(false, offset, 0, None)], offset)
    ensures IsPresent(l, slots, l.fields[i]) ==>
              var f := l.fields[i];
              var slot := r.slots[|slots|];
              && slot.present && slot.offset == AlignUp(offset, f.alignment)
              && slot.offset + slot.size == r.consumed <= |frame|
              && FieldSize(p, l, frame, i, slots, slot.offset) == Size(slot.size)
              && FieldFault(f, frame[slot.offset..r.consumed]).None?
              && slot.raw == CachedRaw(f, frame[slot.offset..r.consumed])
  {
  }

  /** An absent field takes no bytes. */
  lemma StepAbsent(p: Protocol, l: Layout, frame: seq<byte>, i: nat, slots: seq<Slot>, offset: nat)
    requires Compiled(p, l) && i < |l.fields| && !IsPresent(l, slots, l.fields[i])
    ensures AssignField(p, l, frame, i, slots, offset) == Accepted(slots + [Slot(false, offset, 0, None)], offset)
  {
  }

  /** A present field that fits and has no fault is resolved. */
  lemma StepPresent(p: Protocol, l: Layout, frame: seq<byte>, i: nat, slots: seq<Slot>, offset: nat, size: nat)
    requires Compiled(p, l) && i < |l.fields| && IsPresent(l, slots, l.fields[i])
    requires var start := AlignUp(offset, l.fields[i].alignment);
             && start + size <= |frame| && FieldSize(p, l, frame, i, slots, start) == Size(size)
             && FieldFault(l.fields[i], frame[start..start + size]).None?
    ensures var start := AlignUp(offset, l.fields[i].alignment);
            AssignField(p, l, frame, i, slots, offset)
            == Accepted(slots + [Slot(true, start, size, CachedRaw(l.fields[i], frame[start..start + size]))], start + size)
  {
  }

  /** The last element of a walk. */
  lemma LastOfWalk(p: Protocol, e: Layout, rest: seq<byte>, n: nat, total: nat) returns (before: nat, slots: seq<Slot>, consumed: nat)
    requires Compiled(p, e) && n > 0 && WalkSize(p, e, rest, n) == Size(total)
    ensures WalkSize(p, e, rest, n - 1) == Size(before) && before <= |rest|
    ensures Assign(p, e, rest[before..], true) == Accepted(slots, consumed)
    ensures consumed > 0 && total == before + consumed
  {
    before := WalkSize(p, e, rest, n - 1).size;
    var r := Assign(p, e, rest[before..], true);
    slots, consumed := r.slots, r.consumed;
  }

  // ----- Minimum size -----

  lemma FieldsTakeMinimum(p: Protocol, l: Layout, frame: seq<byte>, n: nat, slots: seq<Slot>, offset: nat)
    requires Compiled(p, l) && n <= |l.fields| && AssignFields(p, l, frame, n) == Accepted(slots, offset)
    ensures offset >= MinimumPrefix(l.fields, n)
    decreases Depth(p, l), 3, n
  {
    if n > 0 {
      var prev := AssignFields(p, l, frame, n - 1);
      FieldsTakeMinimum(p, l, frame, n - 1, prev.slots, prev.consumed);
      StepOf(p, l, frame, n - 1, prev.slots, prev.consumed, Accepted(slots, offset));
      var f := l.fields[n - 1];
      if !f.Gated() {
        AlignUpMonotone(MinimumPrefix(l.fields, n - 1), prev.consumed, f.alignment);
        FieldTakesMinimum(p, l, frame, n - 1, prev.slots, slots[n - 1].offset, slots[n - 1].size);
      }
    }
  }

  lemma FieldTakesMinimum(p: Protocol, l: Layout, frame: seq<byte>, i: nat, slots: seq<Slot>, start: nat, size: nat)
    requires Compiled(p, l) && i < |l.fields| && start <= |frame| && FieldSize(p, l, frame, i, slots, start) == Size(size)
    ensures size >= l.fields[i].MinimumContribution()
    decreases Depth(p, l), 2, 0
  {
    assert FieldWellFormed(p, l, i);
    var f := l.fields[i];
    if f.kind.Nested? {
      NestedIsCompiled(p, l, f, f.structId);
      AssignTakesMinimum(p, p.structs[f.structId], frame[start..], true);
    } else if f.kind.Collection? && !f.dynamicCount {
      NestedIsCompiled(p, l, f, f.structId);
      CollectionTakesMinimum(p, p.structs[f.structId], frame[start..], f.fixedCount, size);
    } else if f.kind.Variant? {
      var k := FindCase(f.cases, RawUnsigned(l, slots, f.tagFrom).value).value;
      assert CaseWellFormed(p, f, k);
      NestedIsCompiled(p, l, f, f.cases[k].structId);
      AssignTakesMinimum(p, p.structs[f.cases[k].structId], frame[start..], true);
    }
  }

  lemma CollectionTakesMinimum(p: Protocol, e: Layout, rest: seq<byte>, count: nat, size: nat)
    requires Compiled(p, e) && CollectionSize(p, e, rest, count) == Size(size)
    ensures size >= count * e.minimumSize
    decreases Depth(p, e), 6, 0
  {
    if count > 0 && !e.hasFixedSize {
      WalkTakesMinimum(p, e, rest, count, size);
    }
  }

  lemma WalkTakesMinimum(p: Protocol, e: Layout, rest: seq<byte>, n: nat, total: nat)
    requires Compiled(p, e) && WalkSize(p, e, rest, n) == Size(total)
    ensures total >= n * e.minimumSize
    decreases Depth(p, e), 5, n
  {
    if n > 0 {
      var before, slots, consumed := LastOfWalk(p, e, rest, n, total);
      WalkTakesMinimum(p, e, rest, n - 1, before);
      AssignTakesMinimum(p, e, rest[before..], true);
      OneMoreMultiple(n, e.minimumSize);
    }
  }

  /** An accepted frame takes at least the minimum size of its layout. */
  lemma AssignTakesMinimum(p: Protocol, l: Layout, frame: seq<byte>, prefix: bool)
    requires Compiled(p, l) && Assign(p, l, frame, prefix).Accepted?
    ensures Assign(p, l, frame, prefix).consumed >= l.minimumSize
    decreases Depth(p, l), 4, 0
  {
    var r := AssignFields(p, l, frame, |l.fields|);
    FieldsTakeMinimum(p, l, frame, |l.fields|, r.slots, r.consumed);
  }

  // ----- Fixed size -----

  /** Every fixed-size flag is what the compiler sets it to. */
  ghost predicate FlagsSound(p: Protocol, l: Layout) {
    && (l.hasFixedSize ==> AllFixed(p.structs, l.fields))
    && forall id | 0 <= id < |p.structs| :: p.structs[id].hasFixedSize ==> AllFixed(p.structs, p.structs[id].fields)
  }

  lemma FixedFields(p: Protocol, l: Layout, frame: seq<byte>, n: nat, slots: seq<Slot>, offset: nat)
    requires Compiled(p, l) && FlagsSound(p, l) && l.hasFixedSize
    requires n <= |l.fields| && AssignFields(p, l, frame, n) == Accepted(slots, offset)
    ensures offset == MinimumPrefix(l.fields, n)
    decreases Depth(p, l), 3, n
  {
    if n > 0 {
      var prev := AssignFields(p, l, frame, n - 1);
      FixedFields(p, l, frame, n - 1, prev.slots, prev.consumed);
      StepOf(p, l, frame, n - 1, prev.slots, prev.consumed, Accepted(slots, offset));
      assert FieldFixed(p.structs, l.fields[n - 1]);
      FixedField(p, l, frame, n - 1, prev.slots, slots[n - 1].offset, slots[n - 1].size);
    }
  }

  lemma FixedField(p: Protocol, l: Layout, frame: seq<byte>, i: nat, slots: seq<Slot>, start: nat, size: nat)
    requires Compiled(p, l) && FlagsSound(p, l) && i < |l.fields| && FieldFixed(p.structs, l.fields[i])
    requires start <= |frame| && FieldSize(p, l, frame, i, slots, start) == Size(size)
    ensures size == l.fields[i].MinimumContribution()
    decreases Depth(p, l), 2, 0
  {
    assert FieldWellFormed(p, l, i);
    var f := l.fields[i];
    if f.kind.Nested? {
      NestedIsCompiled(p, l, f, f.structId);
      FixedLayout(p, p.structs[f.structId], frame[start..], true);
    } else if f.kind.Collection? {
      assert size == f.fixedCount * p.structs[f.structId].minimumSize;
    } else if f.kind.Variant? {
      var k := FindCase(f.cases, RawUnsigned(l, slots, f.tagFrom).value).value;
      assert CaseWellFormed(p, f, k) && CaseFixed(p.structs, f, k);
      NestedIsCompiled(p, l, f, f.cases[k].structId);
      FixedLayout(p, p.structs[f.cases[k].structId], frame[start..], true);
    }
  }

  /** An accepted frame of a fixed-size layout takes exactly its minimum size. */
  lemma FixedLayout(p: Protocol, l: Layout, frame: seq<byte>, prefix: bool)
    requires Compiled(p, l) && FlagsSound(p, l) && l.hasFixedSize && Assign(p, l, frame, prefix).Accepted?
    ensures Assign(p, l, frame, prefix).consumed == l.minimumSize
    decreases Depth(p, l), 4, 0
  {
    var r := AssignFields(p, l, frame, |l.fields|);
    FixedFields(p, l, frame, |l.fields|, r.slots, r.consumed);
  }
}
