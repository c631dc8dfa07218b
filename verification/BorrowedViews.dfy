/** Struct decoding is local, so the views into an accepted message succeed on exactly the bytes the
    message set aside for them. */
module BorrowedViews {
  import opened Prelude
  import opened Bytes
  import opened Metadata
  import opened SchemaLayouts
  import opened BorrowedDecoder
  import opened BorrowedSizes

  // ----- Locality -----

  /** No checksum of the layout reaches to the end of whatever span it is decoded from. */
  predicate NoFrameEnd(l: Layout) {
    forall c | c in l.checksums :: !c.from.kind.FrameEnd? && !c.to.kind.FrameEnd?
  }

  /** No checksum of a struct does; those of messages may. */
  predicate LocalStructs(p: Protocol) {
    forall id | 0 <= id < |p.structs| :: NoFrameEnd(p.structs[id])
  }

  predicate Local(p: Protocol, l: Layout) {
    NoFrameEnd(l) && LocalStructs(p)
  }

  /** Two frames start with the same `n` bytes. */
  ghost predicate SameStart(f: seq<byte>, g: seq<byte>, n: nat) {
    n <= |f| && n <= |g| && f[..n] == g[..n]
  }

  lemma SameMiddle(f: seq<byte>, g: seq<byte>, n: nat, from: nat, to: nat)
    requires SameStart(f, g, n) && from <= to <= n
    ensures f[from..to] == g[from..to] && SameStart(f[from..], g[from..], to - from)
  {
    assert f[from..to] == f[..n][from..to];
    assert g[from..to] == g[..n][from..to];
    assert f[from..][..to - from] == f[from..to];
    assert g[from..][..to - from] == g[from..to];
  }

  lemma LocalFields(p: Protocol, l: Layout, f: seq<byte>, g: seq<byte>, total: nat, n: nat, slots: seq<Slot>, offset: nat)
    requires Compiled(p, l) && Local(p, l) && n <= |l.fields| && SameStart(f, g, total)
    requires AssignFields(p, l, f, n) == Accepted(slots, offset) && offset <= total
    ensures AssignFields(p, l, g, n) == Accepted(slots, offset)
    decreases Depth(p, l), 3, n
  {
    if n > 0 {
      var prev := AssignFields(p, l, f, n - 1);
      StepOf(p, l, f, n - 1, prev.slots, prev.consumed, Accepted(slots, offset));
      LocalFields(p, l, f, g, total, n - 1, prev.slots, prev.consumed);
      LocalStep(p, l, f, g, total, n - 1, prev.slots, prev.consumed, slots, offset);
    }
  }

  lemma LocalStep(p: Protocol, l: Layout, f: seq<byte>, g: seq<byte>, total: nat, i: nat, before: seq<Slot>, at: nat, slots: seq<Slot>, offset: nat)
    requires Compiled(p, l) && Local(p, l) && i < |l.fields| && SameStart(f, g, total)
    requires AssignField(p, l, f, i, before, at) == Accepted(slots, offset) && offset <= total
    ensures AssignField(p, l, g, i, before, at) == Accepted(slots, offset)
    decreases Depth(p, l), 2, 1
  {
    StepOf(p, l, f, i, before, at, Accepted(slots, offset));
    if IsPresent(l, before, l.fields[i]) {
      var slot := slots[|before|];
      SameMiddle(f, g, total, slot.offset, offset);
      LocalSize(p, l, f, g, i, before, slot.offset, slot.size);
      StepPresent(p, l, g, i, before, at, slot.size);
      assert slots == before + [slot];
    } else {
      StepAbsent(p, l, g, i, before, at);
    }
  }

  lemma LocalSize(p: Protocol, l: Layout, f: seq<byte>, g: seq<byte>, i: nat, slots: seq<Slot>, start: nat, size: nat)
    requires Compiled(p, l) && Local(p, l) && i < |l.fields|
    requires start + size <= |f| && start + size <= |g| && SameStart(f[start..], g[start..], size)
    requires FieldSize(p, l, f, i, slots, start) == Size(size)
    ensures FieldSize(p, l, g, i, slots, start) == Size(size)
    decreases Depth(p, l), 2, 0
  {
    assert FieldWellFormed(p, l, i);
    var field := l.fields[i];
    if field.kind.Nested? {
      NestedIsCompiled(p, l, field, field.structId);
      LocalAssign(p, p.structs[field.structId], f[start..], g[start..], true);
    } else if field.kind.Collection? {
      NestedIsCompiled(p, l, field, field.structId);
      var count := if field.dynamicCount then RawUnsigned(l, slots, field.countFrom).value else field.fixedCount;
      LocalCollection(p, p.structs[field.structId], f[start..], g[start..], count, size);
    } else if field.kind.Variant? {
      var k := FindCase(field.cases, RawUnsigned(l, slots, field.tagFrom).value).value;
      assert CaseWellFormed(p, field, k);
      NestedIsCompiled(p, l, field, field.cases[k].structId);
      LocalAssign(p, p.structs[field.cases[k].structId], f[start..], g[start..], true);
    }
  }

  lemma LocalCollection(p: Protocol, e: Layout, f: seq<byte>, g: seq<byte>, count: nat, size: nat)
    requires Compiled(p, e) && Local(p, e) && SameStart(f, g, size) && CollectionSize(p, e, f, count) == Size(size)
    ensures CollectionSize(p, e, g, count) == Size(size)
    decreases Depth(p, e), 6, 0
  {
    if count > 0 {
      if e.hasFixedSize {
        QuotientAtLeast(|g|, e.minimumSize, count);
      } else {
        LocalWalk(p, e, f, g, count, size);
      }
    }
  }

  lemma LocalWalk(p: Protocol, e: Layout, f: seq<byte>, g: seq<byte>, n: nat, total: nat)
    requires Compiled(p, e) && Local(p, e) && SameStart(f, g, total) && WalkSize(p, e, f, n) == Size(total)
    ensures WalkSize(p, e, g, n) == Size(total)
    decreases Depth(p, e), 5, n
  {
    if n > 0 {
      var before, slots, consumed := LastOfWalk(p, e, f, n, total);
      SameMiddle(f, g, total, 0, before);
      assert f[0..] == f && g[0..] == g;
      LocalWalk(p, e, f, g, n - 1, before);
      SameMiddle(f, g, total, before, total);
      LocalAssign(p, e, f[before..], g[before..], true);
    }
  }

  /** A layout decodes the same from any span that starts with the bytes it consumes. */
  lemma LocalAssign(p: Protocol, l: Layout, f: seq<byte>, g: seq<byte>, prefix: bool)
    requires Compiled(p, l) && Local(p, l) && Assign(p, l, f, true).Accepted?
    requires SameStart(f, g, Assign(p, l, f, true).consumed)
    requires prefix || l.allowTrailing || |g| == Assign(p, l, f, true).consumed
    ensures Assign(p, l, g, prefix) == Assign(p, l, f, true)
    decreases Depth(p, l), 4, 0
  {
    var r := Assign(p, l, f, true);
    AssignTakesMinimum(p, l, f, true);
    LocalFields(p, l, f, g, r.consumed, |l.fields|, r.slots, r.consumed);
    SlotsInside(p, l, f, |l.fields|, r.slots, r.consumed);
    LocalChecks(p, l, f, g, r.slots, r.consumed, |l.checksums|);
  }

  ghost predicate Inside(slots: seq<Slot>, n: nat) {
    forall k | 0 <= k < |slots| :: slots[k].offset + slots[k].size <= n
  }

  lemma SlotsInside(p: Protocol, l: Layout, f: seq<byte>, n: nat, slots: seq<Slot>, offset: nat)
    requires Compiled(p, l) && n <= |l.fields| && AssignFields(p, l, f, n) == Accepted(slots, offset)
    ensures Inside(slots, offset)
    decreases n
  {
    if n > 0 {
      var prev := AssignFields(p, l, f, n - 1);
      SlotsInside(p, l, f, n - 1, prev.slots, prev.consumed);
      StepOf(p, l, f, n - 1, prev.slots, prev.consumed, Accepted(slots, offset));
      assert forall k | 0 <= k < n - 1 :: slots[k] == slots[..n - 1][k] == prev.slots[k];
    }
  }

  lemma {:induction false} LocalChecks(p: Protocol, l: Layout, f: seq<byte>, g: seq<byte>, slots: seq<Slot>, total: nat, n: nat)
    requires NoFrameEnd(l) && n <= |l.checksums| && SameStart(f, g, total) && Inside(slots, total)
    requires CheckAll(p, l, f, slots, n).None?
    ensures CheckAll(p, l, g, slots, n).None?
    decreases n
  {
    if n > 0 {
      LocalChecks(p, l, f, g, slots, total, n - 1);
      LocalCheck(p, l, f, g, slots, total, l.checksums[n - 1]);
    }
  }

  lemma LocalCheck(p: Protocol, l: Layout, f: seq<byte>, g: seq<byte>, slots: seq<Slot>, total: nat, c: Checksum)
    requires NoFrameEnd(l) && c in l.checksums && SameStart(f, g, total) && Inside(slots, total)
    requires CheckOne(p, l, f, slots, c).None?
    ensures CheckOne(p, l, g, slots, c).None?
  {
    var from, to := AnchorAt(l, c.from, slots, |f|).value, AnchorAt(l, c.to, slots, |f|).value;
    SameMiddle(f, g, total, from, to);
  }

  // ----- Structs and variants in an accepted message -----

  /** Field `i` of an accepted message, in its place. */
  lemma {:induction false} SlotOf(p: Protocol, l: Layout, frame: seq<byte>, n: nat, slots: seq<Slot>, offset: nat, i: nat)
    requires Compiled(p, l) && i < n <= |l.fields| && AssignFields(p, l, frame, n) == Accepted(slots, offset)
    ensures slots[i].present ==>
              && slots[i].offset + slots[i].size <= |frame|
              && FieldSize(p, l, frame, i, slots[..i], slots[i].offset) == Size(slots[i].size)
    decreases n
  {
    var prev := AssignFields(p, l, frame, n - 1);
    StepOf(p, l, frame, n - 1, prev.slots, prev.consumed, Accepted(slots, offset));
    if i < n - 1 {
      SlotOf(p, l, frame, n - 1, prev.slots, prev.consumed, i);
      assert slots[i] == slots[..n - 1][i] == prev.slots[i] && slots[..i] == slots[..n - 1][..i] == prev.slots[..i];
    }
  }

  /** The struct view of a present field succeeds and takes exactly the field's bytes. */
  lemma StructViewSucceeds(p: Protocol, l: Layout, frame: seq<byte>, prefix: bool, i: nat)
    requires Compiled(p, l) && LocalStructs(p) && i < |l.fields| && l.fields[i].kind.Nested? && Assign(p, l, frame, prefix).Accepted?
    requires Assign(p, l, frame, prefix).slots[i].present
    ensures var slot := Assign(p, l, frame, prefix).slots[i];
            var id := l.fields[i].structId;
            && slot.offset + slot.size <= |frame| && id < |p.structs| && Compiled(p, p.structs[id])
            && Assign(p, p.structs[id], frame[slot.offset..slot.offset + slot.size], false).Accepted?
            && Assign(p, p.structs[id], frame[slot.offset..slot.offset + slot.size], false).consumed == slot.size
  {
    assert FieldWellFormed(p, l, i);
    var r := AssignFields(p, l, frame, |l.fields|);
    SlotOf(p, l, frame, |l.fields|, r.slots, r.consumed, i);
    var slot := r.slots[i];
    NestedIsCompiled(p, l, l.fields[i], l.fields[i].structId);
    ViewSucceeds(p, p.structs[l.fields[i].structId], frame, slot.offset, slot.size);
  }

  /** The same for a variant: the case the tag selects views the field's bytes. */
  lemma VariantViewSucceeds(p: Protocol, l: Layout, frame: seq<byte>, prefix: bool, i: nat)
    requires Compiled(p, l) && LocalStructs(p) && i < |l.fields| && l.fields[i].kind.Variant? && Assign(p, l, frame, prefix).Accepted?
    requires Assign(p, l, frame, prefix).slots[i].present
    ensures var slots := Assign(p, l, frame, prefix).slots;
            var f := l.fields[i];
            && slots[i].offset + slots[i].size <= |frame|
            && RawUnsigned(l, slots, f.tagFrom).Some?
            && FindCase(f.cases, RawUnsigned(l, slots, f.tagFrom).value).Some?
            && var id := f.cases[FindCase(f.cases, RawUnsigned(l, slots, f.tagFrom).value).value].structId;
            && id < |p.structs| && Compiled(p, p.structs[id])
            && Assign(p, p.structs[id], frame[slots[i].offset..slots[i].offset + slots[i].size], false).Accepted?
            && Assign(p, p.structs[id], frame[slots[i].offset..slots[i].offset + slots[i].size], false).consumed == slots[i].size
  {
    assert FieldWellFormed(p, l, i);
    var f := l.fields[i];
    var r := AssignFields(p, l, frame, |l.fields|);
    SlotOf(p, l, frame, |l.fields|, r.slots, r.consumed, i);
    var slot := r.slots[i];
    assert RawUnsigned(l, r.slots[..i], f.tagFrom) == RawUnsigned(l, r.slots, f.tagFrom);
    var k := FindCase(f.cases, RawUnsigned(l, r.slots, f.tagFrom).value).value;
    assert CaseWellFormed(p, f, k);
    NestedIsCompiled(p, l, f, f.cases[k].structId);
    ViewSucceeds(p, p.structs[f.cases[k].structId], frame, slot.offset, slot.size);
  }

  lemma ViewSucceeds(p: Protocol, l: Layout, frame: seq<byte>, offset: nat, size: nat)
    requires Compiled(p, l) && Local(p, l) && offset + size <= |frame|
    requires SizeOf(Assign(p, l, frame[offset..], true)) == Size(size)
    ensures Assign(p, l, frame[offset..offset + size], false) == Assign(p, l, frame[offset..], true)
  {
    var view := frame[offset..offset + size];
    assert view[..size] == view && frame[offset..][..size] == view;
    LocalAssign(p, l, frame[offset..], view, false);
  }

  // ----- Collections in an accepted message -----

  /** The element view `at(i)` yields: fixed-size elements by multiplication, others by walking. */
  function ElementAt(p: Protocol, e: Layout, view: seq<byte>, count: nat, i: nat): (r: Outcome)
    requires Compiled(p, e)
  {
    if i >= count then Rejected(SchemaMismatch)
    else if e.hasFixedSize then
      if e.minimumSize == 0 || i * e.minimumSize > |view| then Rejected(SchemaMismatch)
      else Assign(p, e, view[i * e.minimumSize..], true)
    else
      match WalkSize(p, e, view, i)
      case NoSize(reason) => Rejected(reason)
      case Size(offset) => Assign(p, e, view[offset..], true)
  }

  /** A walk that gets to `n` passes through every earlier element. */
  lemma {:induction false} WalkPasses(p: Protocol, e: Layout, rest: seq<byte>, n: nat, total: nat, i: nat) returns (offset: nat)
    requires Compiled(p, e) && i <= n && WalkSize(p, e, rest, n) == Size(total)
    ensures WalkSize(p, e, rest, i) == Size(offset) && offset <= total
    decreases n
  {
    if i == n {
      offset := total;
    } else {
      var before, slots, consumed := LastOfWalk(p, e, rest, n, total);
      offset := WalkPasses(p, e, rest, n - 1, before, i);
    }
  }

  /** In an accepted collection of variable-size elements every element can be viewed, and the elements
      lie end to end over exactly the collection's bytes. */
  lemma VariableElementsTile(p: Protocol, e: Layout, rest: seq<byte>, count: nat, size: nat, i: nat)
    requires Compiled(p, e) && Local(p, e) && !e.hasFixedSize && i < count
    requires CollectionSize(p, e, rest, count) == Size(size)
    ensures size <= |rest|
    ensures var view := rest[..size];
            && ElementAt(p, e, view, count, i).Accepted? && ElementAt(p, e, view, count, i).consumed > 0
            && WalkSize(p, e, view, i).Size? && WalkSize(p, e, view, i + 1).Size?
            && WalkSize(p, e, view, i + 1).size == WalkSize(p, e, view, i).size + ElementAt(p, e, view, count, i).consumed
            && WalkSize(p, e, view, count) == Size(size)
  {
    var view := rest[..size];
    assert view[..size] == view;
    LocalWalk(p, e, rest, view, count, size);
    var end := WalkPasses(p, e, view, count, size, i + 1);
    var before, slots, consumed := LastOfWalk(p, e, view, i + 1, end);
  }

  /** Fixed-size elements are reached by multiplication exactly where a walk would reach them. */
  lemma {:induction false} JumpIsWalk(p: Protocol, e: Layout, view: seq<byte>, i: nat, offset: nat)
    requires Compiled(p, e) && FlagsSound(p, e) && e.hasFixedSize && WalkSize(p, e, view, i) == Size(offset)
    ensures offset == i * e.minimumSize
    decreases i
  {
    if i > 0 {
      var before, slots, consumed := LastOfWalk(p, e, view, i, offset);
      JumpIsWalk(p, e, view, i - 1, before);
      FixedLayout(p, e, view[before..], true);
      OneMoreMultiple(i, e.minimumSize);
    }
  }

  /** In an accepted collection of fixed-size elements every element has its own slice of the view, and
      whenever a walk accepts the elements up to `i`, `at(i)` is the element the walk would come to. */
  lemma FixedElementsTile(p: Protocol, e: Layout, rest: seq<byte>, count: nat, size: nat, i: nat)
    requires Compiled(p, e) && FlagsSound(p, e) && e.hasFixedSize && i < count
    requires CollectionSize(p, e, rest, count) == Size(size)
    ensures size == count * e.minimumSize <= |rest| && (i + 1) * e.minimumSize <= size
    ensures var view := rest[..size];
            WalkSize(p, e, view, i).Size? ==> ElementAt(p, e, view, count, i) == Assign(p, e, view[WalkSize(p, e, view, i).size..], true)
  {
    assert |rest| == |rest| / e.minimumSize * e.minimumSize + |rest| % e.minimumSize;
    MulMonotone(count, |rest| / e.minimumSize, e.minimumSize);
    MulMonotone(i + 1, count, e.minimumSize);
    MulMonotone(i, count, e.minimumSize);
    var view := rest[..size];
    if WalkSize(p, e, view, i).Size? {
      JumpIsWalk(p, e, view, i, WalkSize(p, e, view, i).size);
    }
  }
}
