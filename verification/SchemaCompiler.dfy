/** The schema compiler: a depth-first walk over struct definitions that turns each layout definition
    into the metadata the codec and the decoder trust. */
module SchemaCompiler {
  import opened Prelude
  import opened Bytes
  import opened Metadata
  import opened SchemaLayouts

  // ----- The walk -----

  datatype CompileState = Unvisited | Visiting | Done

  /** The `k`-th finished struct is sound and refers only to structs finished before it. */
  ghost predicate Finished(d: Definition, p: Protocol, order: seq<nat>, k: nat)
    requires k < |order|
  {
    && order[k] < |p.structs| && order[k] < |d.structs|
    && LayoutSound(p, d, d.structs[order[k]], p.structs[order[k]])
    && RefersOnlyTo(p.structs[order[k]].fields, order[..k])
    && !p.structs[order[k]].isMessage
  }

  ghost predicate AllFinished(d: Definition, p: Protocol, order: seq<nat>) {
    forall k | 0 <= k < |order| :: Finished(d, p, order, k)
  }

  ghost predicate StatesMatch(states: seq<CompileState>, order: seq<nat>, stack: seq<nat>) {
    forall k | 0 <= k < |states| :: (states[k].Done? <==> k in order) && (states[k].Visiting? <==> k in stack)
  }

  ghost function UnvisitedIn(states: seq<CompileState>): set<nat> {
    set k: nat | k < |states| && states[k].Unvisited? :: k
  }

  lemma SoundAfter(d: Definition, p: Protocol, p': Protocol, order: seq<nat>, def: LayoutDefinition, l: Layout)
    requires LayoutSound(p, d, def, l) && RefersOnlyTo(l.fields, order) && SameDone(p.structs, p'.structs, order)
    ensures LayoutSound(p', d, def, l)
  {
    FieldsSoundAfter(d, p, p', order, def.fields, l.fields, l.fields);
    if AllFixed(p.structs, l.fields) {
      FixedAfter(p.structs, p'.structs, order, l.fields);
    }
    if AllFixed(p'.structs, l.fields) {
      FixedAfter(p'.structs, p.structs, order, l.fields);
    }
  }

  /** Facts about the fields so far survive the compilation of further fields and structs. */
  lemma FieldsSoundAfter(d: Definition, p: Protocol, p': Protocol, order: seq<nat>, defs: seq<FieldDefinition>,
                         fields: seq<Field>, fields': seq<Field>)
    requires FieldsSound(p, d, defs, fields) && RefersOnlyTo(fields, order) && SameDone(p.structs, p'.structs, order)
    requires |fields| <= |fields'| && fields'[..|fields|] == fields
    ensures forall i | 0 <= i < |fields| :: FieldSound(p', d, defs[i], fields', i)
  {
    forall i | 0 <= i < |fields|
      ensures FieldSound(p', d, defs[i], fields', i)
    {
      assert FieldSound(p, d, defs[i], fields, i);
      StaysSound(p, p', d, defs[i], fields, fields', i);
    }
  }

  lemma FixedAfter(was: seq<Layout>, now: seq<Layout>, order: seq<nat>, fields: seq<Field>)
    requires RefersOnlyTo(fields, order) && SameDone(was, now, order) && AllFixed(was, fields)
    ensures AllFixed(now, fields)
  {
    forall k | 0 <= k < |fields|
      ensures FieldFixed(now, fields[k])
    {
      assert FieldFixed(was, fields[k]);
      var f := fields[k];
      if f.kind.Variant? {
        forall j | 0 <= j < |f.cases|
          ensures CaseFixed(now, f, j)
        {
          assert CaseFixed(was, f, j) && f.cases[j] in f.cases;
        }
      }
    }
  }

  lemma ProgressAfter(was: seq<Layout>, now: seq<Layout>, done: seq<nat>, g: Progress)
    requires ProgressSound(was, g) && RefersOnlyTo(g.fields, done) && SameDone(was, now, done)
    ensures ProgressSound(now, g)
  {
    if AllFixed(was, g.fields) {
      FixedAfter(was, now, done, g.fields);
    }
    if AllFixed(now, g.fields) {
      FixedAfter(now, was, done, g.fields);
    }
  }

  lemma RefersToOneMore(fields: seq<Field>, done: seq<nat>, order: seq<nat>, h: Field)
    requires RefersOnlyTo(fields, done) && done <= order && forall id | id in References(h) :: id in order
    ensures RefersOnlyTo(fields + [h], order)
  {
    var longer := fields + [h];
    forall k, id | 0 <= k < |longer| && id in References(longer[k])
      ensures id in order
    {
      if k < |fields| {
        assert id in References(fields[k]) && id in done;
      }
    }
  }

  lemma OneMoreSound(d: Definition, p: Protocol, p': Protocol, done: seq<nat>, defs: seq<FieldDefinition>, fields: seq<Field>, h: Field)
    requires FieldsSound(p, d, defs, fields) && RefersOnlyTo(fields, done) && SameDone(p.structs, p'.structs, done)
    requires |fields| < |defs| && FieldSound(p', d, defs[|fields|], fields + [h], |fields|)
    ensures FieldsSound(p', d, defs, fields + [h])
  {
    FieldsSoundAfter(d, p, p', done, defs, fields, fields + [h]);
  }

  /** The first `|g.fields|` fields are compiled. */
  ghost predicate GoingOn(d: Definition, p: Protocol, order: seq<nat>, defs: seq<FieldDefinition>, g: Progress) {
    && FieldsSound(p, d, defs, g.fields) && RefersOnlyTo(g.fields, order)
    && ProgressSound(p.structs, g) && g.pending == DefinedChecksums(defs, |g.fields|)
  }

  /** One more compiled field keeps what is known of a layout in the making. */
  lemma NextSound(d: Definition, p: Protocol, p': Protocol, done: seq<nat>, order: seq<nat>, defs: seq<FieldDefinition>,
                  g: Progress, h: Field, fixed: bool, checksum: Option<ChecksumDefinition>)
    requires GoingOn(d, p, done, defs, g) && SameDone(p.structs, p'.structs, done) && done <= order && |g.fields| < |defs|
    requires FieldSound(p', d, defs[|g.fields|], g.fields + [h], |g.fields|) && h.id == |g.fields| && h.name !in g.ids
    requires forall id | id in References(h) :: id in order
    requires fixed <==> FieldFixed(p'.structs, h)
    requires checksum == defs[|g.fields|].checksum && (checksum.Some? ==> h.Counter())
    ensures GoingOn(d, p', order, defs, AddField(g, h, fixed, checksum))
  {
    OneMoreSound(d, p, p', done, defs, g.fields, h);
    ProgressMore(p.structs, p'.structs, done, g, h, fixed, checksum);
    RefersToOneMore(g.fields, done, order, h);
    Gather(d, p', order, defs, g, h, AddField(g, h, fixed, checksum));
  }

  lemma ProgressMore(was: seq<Layout>, now: seq<Layout>, done: seq<nat>, g: Progress, h: Field, fixed: bool,
                     checksum: Option<ChecksumDefinition>)
    requires ProgressSound(was, g) && RefersOnlyTo(g.fields, done) && SameDone(was, now, done)
    requires h.id == |g.fields| && h.name !in g.ids
    requires fixed <==> FieldFixed(now, h)
    requires checksum.Some? ==> h.Counter()
    ensures ProgressSound(now, AddField(g, h, fixed, checksum))
  {
    ProgressAfter(was, now, done, g);
    ProgressGrows(now, g, h, fixed, checksum);
  }

  lemma Gather(d: Definition, p: Protocol, order: seq<nat>, defs: seq<FieldDefinition>, g: Progress, h: Field, g': Progress)
    requires g'.fields == g.fields + [h] && |g.fields| < |defs| && FieldsSound(p, d, defs, g'.fields)
    requires RefersOnlyTo(g'.fields, order) && ProgressSound(p.structs, g')
    requires g.pending == DefinedChecksums(defs, |g.fields|)
    requires g'.pending == match defs[|g.fields|].checksum case None => g.pending case Some(c) => g.pending + [PendingChecksum(|g.fields|, c)]
    ensures GoingOn(d, p, order, defs, g')
  {}

  lemma AllFinishedAfter(d: Definition, p: Protocol, p': Protocol, order: seq<nat>)
    requires AllFinished(d, p, order) && SameDone(p.structs, p'.structs, order)
    ensures AllFinished(d, p', order)
  {
    forall k | 0 <= k < |order|
      ensures Finished(d, p', order, k)
    {
      assert Finished(d, p, order, k);
      SoundAfter(d, p, p', order[..k], d.structs[order[k]], p.structs[order[k]]);
    }
  }

  lemma FinishOne(d: Definition, p: Protocol, order: seq<nat>, id: nat)
    requires AllFinished(d, p, order) && id < |p.structs| && id < |d.structs|
    requires LayoutSound(p, d, d.structs[id], p.structs[id]) && RefersOnlyTo(p.structs[id].fields, order) && !p.structs[id].isMessage
    ensures AllFinished(d, p, order + [id])
  {
    var longer := order + [id];
    forall k | 0 <= k < |longer|
      ensures Finished(d, p, longer, k)
    {
      if k < |order| {
        assert Finished(d, p, order, k) && longer[..k] == order[..k];
      } else {
        assert longer[..k] == order;
      }
    }
  }

  lemma MarkedVisiting(states: seq<CompileState>, id: nat)
    requires id < |states| && states[id].Unvisited?
    ensures UnvisitedIn(states[id := Visiting]) < UnvisitedIn(states)
  {
    var marked := states[id := Visiting];
    forall k | k in UnvisitedIn(marked)
      ensures k in UnvisitedIn(states)
    {
      assert marked[k].Unvisited? && k != id;
    }
    assert id in UnvisitedIn(states) && id !in UnvisitedIn(marked);
  }

  lemma LongerPath(d: Definition, path: seq<nat>, id: nat)
    requires IsPath(d, path) && id < |d.structs| && (path != [] ==> Edge(d, path[|path| - 1], id))
    ensures IsPath(d, path + [id])
  {
    var longer := path + [id];
    forall k | 0 <= k < |longer| - 1
      ensures Leads(d, longer, k)
    {
      if k + 1 < |path| {
        assert Leads(d, path, k);
      }
    }
  }

  lemma ShorterPath(d: Definition, path: seq<nat>, id: nat)
    requires IsPath(d, path + [id])
    ensures IsPath(d, path)
  {
    var longer := path + [id];
    forall k | 0 <= k < |path| - 1
      ensures Leads(d, path, k)
    {
      assert Leads(d, longer, k);
    }
    assert forall k | 0 <= k < |path| :: path[k] == longer[k];
  }

  // ----- The compiler -----

  class ProtocolCompiler {
    const d: Definition
    const widths: map<string, nat>
    const registry: Registry
    const maxFields: nat
    var structs: seq<Layout>
    var states: seq<CompileState>
    ghost var order: seq<nat>
    ghost var stack: seq<nat>

    /** The protocol as compiled so far. */
    ghost function P(): Protocol
      reads this
    {
      Protocol(structs, registry)
    }

    ghost predicate Valid()
      reads this
    {
      && EnumsUsable(d)
      && |structs| == |states| == |d.structs|
      && StatesMatch(states, order, stack)
      && AllFinished(d, P(), order)
      && IsPath(d, stack)
    }

    /** Structs finished before are still there and the path is as it was. */
    ghost predicate Kept(was: seq<Layout>, done: seq<nat>, path: seq<nat>, unvisited: set<nat>)
      reads this
    {
      stack == path && done <= order && SameDone(was, structs, done) && UnvisitedIn(states) <= unvisited
    }

    constructor (d: Definition, widths: map<string, nat>, registry: Registry, maxFields: nat)
      requires EnumsUsable(d)
      ensures this.d == d && this.registry == registry && Valid() && order == [] && stack == []
    {
      this.d, this.widths, this.registry, this.maxFields := d, widths, registry, maxFields;
      structs := seq(|d.structs|, _ => Draft([]));
      states := seq(|d.structs|, _ => Unvisited);
      order, stack := [], [];
    }

    /** Compiles a struct after the structs it refers to; a struct met again while it is being compiled
        is a recursive one. */
    method CompileStruct(id: nat) returns (r: Result<nat, CompileError>)
      requires Valid() && id < |d.structs| && (stack != [] ==> Edge(d, stack[|stack| - 1], id))
      modifies this
      ensures r.Ok? ==> r.value == id && Valid() && id in order
      ensures r.Ok? ==> Kept(old(structs), old(order), old(stack), old(UnvisitedIn(states)))
      ensures r == Err(RecursiveStruct) ==> Cyclic(d)
      decreases UnvisitedIn(states), 0
    {
      if states[id].Done? {
        return Ok(id);
      }
      if states[id].Visiting? {
        ClosedPath(d, stack, id);
        return Err(RecursiveStruct);
      }
      ghost var was, done, path, unvisited := structs, order, stack, UnvisitedIn(states);
      assert id in unvisited && id !in path && id !in done;
      states := states[id := Visiting];
      stack := stack + [id];
      LongerPath(d, path, id);
      MarkedVisiting(old(states), id);
      assert AllEdgesFrom(d.structs[id]) by {
        assert stack[|stack| - 1] == id;
      }
      var compiled := CompileLayout(d.structs[id], false);
      if compiled.Err? {
        states := if id < |states| then states[id := Unvisited] else states;
        return Err(compiled.error);
      }
      FinishStruct(id, compiled.value, was, done, path, unvisited);
      return Ok(id);
    }

    /** Files a compiled struct. */
    method FinishStruct(id: nat, compiled: Layout, ghost was: seq<Layout>, ghost done: seq<nat>, ghost path: seq<nat>, ghost unvisited: set<nat>)
      requires Valid() && id < |d.structs| && stack == path + [id] && id !in path && id !in done
      requires Kept(was, done, path + [id], unvisited)
      requires LayoutSound(P(), d, d.structs[id], compiled) && RefersOnlyTo(compiled.fields, order) && !compiled.isMessage
      modifies this
      ensures Valid() && id in order && Kept(was, done, path, unvisited)
    {
      ghost var p := P();
      structs := structs[id := compiled];
      assert id !in order by {
        assert states[id].Visiting?;
      }
      assert SameDone(p.structs, structs, order);
      SoundAfter(d, p, P(), order, d.structs[id], compiled);
      AllFinishedAfter(d, p, P(), order);
      FinishOne(d, P(), order, id);
      states := states[id := Done];
      order := order + [id];
      stack := path;
      ShorterPath(d, path, id);
    }

    /** The outcome of compiling one field against the fields before it. */
    ghost predicate FieldOutcome(f: FieldDefinition, fields: seq<Field>, r: Result<(Field, bool), CompileError>)
      reads this
    {
      match r
      case Err(error) => error.RecursiveStruct? ==> Cyclic(d)
      case Ok((g, fixed)) =>
        && Valid()
        && FieldSound(P(), d, f, fields + [g], |fields|) && g.id == |fields|
        && (forall id | id in References(g) :: id in order)
        && (fixed <==> FieldFixed(structs, g))
    }

    /** The same before its gates are added. */
    ghost predicate UngatedOutcome(f: FieldDefinition, fields: seq<Field>, r: Result<(Field, bool), CompileError>)
      reads this
    {
      match r
      case Err(error) => error.RecursiveStruct? ==> Cyclic(d)
      case Ok((g, fixed)) =>
        && Valid()
        && UngatedSound(P(), d, f, fields + [g], |fields|) && g.id == |fields|
        && (forall id | id in References(g) :: id in order)
        && (fixed <==> FieldFixed(structs, g))
        && !g.Gated() && g.reserved == f.reserved
        && (f.reserved && f.kind.Raw? ==> f.condition.None? && f.presence.None?)
    }

    ghost predicate EdgesFrom(f: FieldDefinition)
      reads this
    {
      stack != [] ==> forall j | RefersTo(d, f, j) :: Edge(d, stack[|stack| - 1], j)
    }

    /** Compiles the struct a field names. */
    method CompileNamed(f: FieldDefinition, name: Name) returns (r: Result<nat, CompileError>)
      requires Valid() && EdgesFrom(f) && name in TypeNames(d, f)
      modifies this
      ensures r.Ok? ==> Valid() && StructId(d, name) == Some(r.value) && r.value < |structs| && r.value in order
      ensures r.Ok? ==> Kept(old(structs), old(order), old(stack), old(UnvisitedIn(states)))
      ensures r == Err(RecursiveStruct) ==> Cyclic(d)
      decreases UnvisitedIn(states), 1
    {
      var id := StructId(d, name);
      if id.None? {
        return Err(UnknownType);
      }
      assert RefersTo(d, f, id.value);
      r := CompileStruct(id.value);
    }

    /** A field of a named type: an enum becomes a scalar, a struct is compiled first. */
    method CompileNested(f: FieldDefinition, fields: seq<Field>) returns (r: Result<(Field, bool), CompileError>)
      requires Valid() && EdgesFrom(f) && f.kind.Nested?
      modifies this
      ensures UngatedOutcome(f, fields, r)
      ensures r.Ok? ==> Kept(old(structs), old(order), old(stack), old(UnvisitedIn(states)))
      decreases UnvisitedIn(states), 2
    {
      if f.typeName.None? {
        return Err(BadField);
      }
      var enumId := EnumId(d, f.typeName.value);
      if enumId.Some? {
        var e := d.enums[enumId.value];
        var g := Plain(f, |fields|).(kind := Enumeration, width := e.width, order := e.order);
        if f.fixedCount != 0 || f.countFrom.Some? || f.tagFrom.Some? || f.cases != [] {
          return Err(BadField);
        }
        ScalarSound(P(), d, f, fields, g);
        return Ok((g, true));
      }
      if f.expected.Some? || f.fixedSize != 0 || f.sizeFrom.Some? {
        return Err(BadField);
      }
      var id := CompileNamed(f, f.typeName.value);
      if id.Err? {
        return Err(id.error);
      }
      if f.fixedCount != 0 || f.countFrom.Some? || f.tagFrom.Some? || f.cases != [] {
        return Err(BadField);
      }
      var nested := structs[id.value];
      var g := Plain(f, |fields|).(structId := id.value, fixedSize := nested.minimumSize);
      NestedSound(P(), d, f, fields, g, id.value);
      return Ok((g, nested.hasFixedSize));
    }

    /** A collection: its element struct is compiled first and must not be empty. */
    method CompileCollection(f: FieldDefinition, ids: map<Name, nat>, fields: seq<Field>) returns (r: Result<(Field, bool), CompileError>)
      requires IdsMatch(ids, fields) && Valid() && EdgesFrom(f) && f.kind.Collection?
      modifies this
      ensures UngatedOutcome(f, fields, r)
      ensures r.Ok? ==> Kept(old(structs), old(order), old(stack), old(UnvisitedIn(states)))
      decreases UnvisitedIn(states), 2
    {
      if f.typeName.None? || (f.fixedCount == 0) == f.countFrom.None? {
        return Err(BadField);
      }
      if f.expected.Some? || f.checksum.Some? || f.tagFrom.Some? || f.cases != [] {
        return Err(BadField);
      }
      var id := CompileNamed(f, f.typeName.value);
      if id.Err? {
        return Err(id.error);
      }
      var element := structs[id.value];
      if element.minimumSize == 0 {
        return Err(BadField);
      }
      var g := Plain(f, |fields|).(structId := id.value, fixedCount := f.fixedCount);
      if f.countFrom.Some? {
        var source := CounterNamed(ids, fields, f.countFrom.value);
        if source.Err? {
          return Err(source.error);
        }
        g := g.(dynamicCount := true, countFrom := source.value, fixedSize := 0);
        CollectionSound(P(), d, f, fields, g, id.value, source.value);
        return Ok((g, false));
      }
      if f.fixedCount * element.minimumSize > SIZE_MAX {
        return Err(SizeRange);
      }
      g := g.(fixedSize := f.fixedCount * element.minimumSize);
      CollectionSound(P(), d, f, fields, g, id.value, 0);
      return Ok((g, element.hasFixedSize));
    }

    /** A variant: the struct of every case is compiled first. */
    method CompileVariant(f: FieldDefinition, ids: map<Name, nat>, fields: seq<Field>) returns (r: Result<(Field, bool), CompileError>)
      requires IdsMatch(ids, fields) && Valid() && EdgesFrom(f) && f.kind.Variant?
      modifies this
      ensures UngatedOutcome(f, fields, r)
      ensures r.Ok? ==> Kept(old(structs), old(order), old(stack), old(UnvisitedIn(states)))
      decreases UnvisitedIn(states), 4
    {
      if f.tagFrom.None? || f.cases == [] {
        return Err(BadField);
      }
      if f.expected.Some? || f.checksum.Some? || f.fixedSize != 0 || f.sizeFrom.Some? || f.fixedCount != 0 || f.countFrom.Some? {
        return Err(BadField);
      }
      var tagFrom := CounterNamed(ids, fields, f.tagFrom.value);
      if tagFrom.Err? {
        return Err(tagFrom.error);
      }
      var compiled := CompileCases(f);
      if compiled.Err? {
        return Err(compiled.error);
      }
      var CaseSummary(cases, smallest, _, allFixed) := compiled.value;
      var g := Plain(f, |fields|).(tagFrom := tagFrom.value, cases := SortByTag(cases), fixedSize := smallest);
      assert f.cases[..|f.cases|] == f.cases;
      VariantSound(P(), d, f, fields, g, cases, smallest, allFixed, tagFrom.value);
      return Ok((g, allFixed));
    }

    /** The first `k` cases are compiled and summed up. */
    ghost predicate CasesGoing(f: FieldDefinition, k: nat, a: CaseSummary)
      reads this
    {
      Valid() && k <= |f.cases| && SummarySound(P(), d, f.cases[..k], a) && CasesIn(a.cases, order)
    }

    /** Compiles the structs of the cases, noting the smallest minimum size on the way. */
    method CompileCases(f: FieldDefinition) returns (r: Result<CaseSummary, CompileError>)
      requires Valid() && EdgesFrom(f) && f.kind.Variant?
      modifies this
      ensures r == Err(RecursiveStruct) ==> Cyclic(d)
      ensures r.Ok? ==> CasesGoing(f, |f.cases|, r.value)
      ensures r.Ok? ==> Kept(old(structs), old(order), old(stack), old(UnvisitedIn(states)))
      decreases UnvisitedIn(states), 3
    {
      var a := CaseSummary([], 0, 0, true);
      for k := 0 to |f.cases|
        invariant CasesGoing(f, k, a) && Kept(old(structs), old(order), old(stack), old(UnvisitedIn(states)))
      {
        var longer := CompileCase(f, k, a);
        if longer.Err? {
          return longer;
        }
        a := longer.value;
      }
      return Ok(a);
    }

    /** Compiles the struct of case `k` and adds it to the summary. */
    method CompileCase(f: FieldDefinition, k: nat, a: CaseSummary) returns (r: Result<CaseSummary, CompileError>)
      requires CasesGoing(f, k, a) && EdgesFrom(f) && f.kind.Variant? && k < |f.cases|
      modifies this
      ensures r == Err(RecursiveStruct) ==> Cyclic(d)
      ensures r.Ok? ==> CasesGoing(f, k + 1, r.value)
      ensures r.Ok? ==> Kept(old(structs), old(order), old(stack), old(UnvisitedIn(states)))
      decreases UnvisitedIn(states), 2
    {
      ghost var p, done := P(), order;
      assert f.cases[k] in f.cases;
      var id := CompileNamed(f, f.cases[k].typeName);
      if id.Err? {
        return Err(id.error);
      }
      var c := VariantCase(f.cases[k].tag, id.value);
      SummaryAfter(d, p, P(), done, f.cases[..k], a);
      SummaryGrows(P(), d, f.cases, k, a, c);
      return Ok(AddToSummary(a, c, structs[id.value]));
    }

    /** Compiles one field: what its kind demands, then its gates. */
    method CompileField(f: FieldDefinition, ids: map<Name, nat>, fields: seq<Field>) returns (r: Result<(Field, bool), CompileError>)
      requires IdsMatch(ids, fields) && Valid() && EdgesFrom(f)
      modifies this
      ensures FieldOutcome(f, fields, r)
      ensures r.Ok? ==> Kept(old(structs), old(order), old(stack), old(UnvisitedIn(states)))
      decreases UnvisitedIn(states), 6
    {
      if f.alignment != 0 && !PowerOfTwo(f.alignment) {
        return Err(BadAlignment);
      }
      var ungated := CompileKind(f, ids, fields);
      if ungated.Err? {
        return ungated;
      }
      var (g, fixed) := ungated.value;
      var gated := AddGates(f, g, ids, fields);
      if gated.Err? {
        return Err(gated.error);
      }
      GatesSound(P(), d, f, ids, fields, g, gated.value);
      return Ok((gated.value, fixed && f.condition.None? && f.presence.None?));
    }

    method CompileKind(f: FieldDefinition, ids: map<Name, nat>, fields: seq<Field>) returns (r: Result<(Field, bool), CompileError>)
      requires IdsMatch(ids, fields) && Valid() && EdgesFrom(f)
      modifies this
      ensures UngatedOutcome(f, fields, r)
      ensures r.Ok? ==> Kept(old(structs), old(order), old(stack), old(UnvisitedIn(states)))
      decreases UnvisitedIn(states), 5
    {
      if f.kind.Raw? || f.kind.Text? {
        var g := CompileBytes(f, ids, fields);
        if g.Err? {
          return Err(g.error);
        }
        BytesSound(P(), d, f, ids, fields, g.value);
        return Ok((g.value, f.sizeFrom.None?));
      } else if f.kind.Nested? {
        r := CompileNested(f, fields);
      } else if f.kind.Collection? {
        r := CompileCollection(f, ids, fields);
      } else if f.kind.Variant? {
        r := CompileVariant(f, ids, fields);
      } else {
        var g := CompileScalar(f, |fields|);
        if g.Err? {
          return Err(g.error);
        }
        ScalarSound(P(), d, f, fields, g.value);
        return Ok((g.value, true));
      }
    }

    ghost predicate Going(def: LayoutDefinition, g: Progress)
      reads this
    {
      Valid() && GoingOn(d, P(), order, def.fields, g)
    }

    ghost predicate AllEdgesFrom(def: LayoutDefinition)
      reads this
    {
      forall f | f in def.fields :: EdgesFrom(f)
    }

    /** What is wrong with the checksum a field is to hold, if anything. */
    function ChecksumProblem(f: FieldDefinition, h: Field): (r: Option<CompileError>)
      ensures r.Some? ==> !r.value.RecursiveStruct?
      ensures r.None? && f.checksum.Some? ==> h.Counter()
    {
      match f.checksum
      case None => None
      case Some(c) =>
        if !h.Counter() then Some(BadField)
        else if c.algorithm !in widths then Some(UnknownAlgorithm)
        else if widths[c.algorithm] != h.width then Some(BadWidth)
        else None
    }

    /** Compiles the next field of a layout. */
    method CompileNext(def: LayoutDefinition, g: Progress) returns (r: Result<Progress, CompileError>)
      requires Going(def, g) && |g.fields| < |def.fields| && AllEdgesFrom(def)
      modifies this
      ensures r == Err(RecursiveStruct) ==> Cyclic(d)
      ensures r.Ok? ==> Going(def, r.value) && |r.value.fields| == |g.fields| + 1
      ensures r.Ok? ==> Kept(old(structs), old(order), old(stack), old(UnvisitedIn(states)))
      decreases UnvisitedIn(states), 7
    {
      var f := def.fields[|g.fields|];
      if f.name.text == "" {
        return Err(BadName);
      }
      if f.name in g.ids {
        return Err(DuplicateName);
      }
      ghost var p, done := P(), order;
      var compiled := CompileField(f, g.ids, g.fields);
      if compiled.Err? {
        return Err(compiled.error);
      }
      var (h, fixed) := compiled.value;
      var problem := ChecksumProblem(f, h);
      if problem.Some? {
        return Err(problem.value);
      }
      NextSound(d, p, P(), done, order, def.fields, g, h, fixed, f.checksum);
      return Ok(AddField(g, h, fixed, f.checksum));
    }

    /** Compiles the fields of a layout in turn. */
    method CompileLayout(def: LayoutDefinition, isMessage: bool) returns (r: Result<Layout, CompileError>)
      requires Valid() && AllEdgesFrom(def)
      modifies this
      ensures r.Ok? ==> Valid() && Kept(old(structs), old(order), old(stack), old(UnvisitedIn(states)))
      ensures r.Ok? ==> LayoutSound(P(), d, def, r.value) && RefersOnlyTo(r.value.fields, order) && r.value.isMessage == isMessage
      ensures r == Err(RecursiveStruct) ==> Cyclic(d)
      decreases UnvisitedIn(states), 8
    {
      if def.fields == [] {
        return Err(NoFields);
      }
      if |def.fields| > maxFields {
        return Err(TooManyFields);
      }
      var g := Progress(map[], [], 0, true, [], true, []);
      while |g.fields| < |def.fields|
        invariant Going(def, g) && AllEdgesFrom(def)
        invariant Kept(old(structs), old(order), old(stack), old(UnvisitedIn(states)))
        decreases |def.fields| - |g.fields|
      {
        var next := CompileNext(def, g);
        if next.Err? {
          return Err(next.error);
        }
        g := next.value;
      }
      r := FinishLayout(def, isMessage, g);
    }

    /** Resolves the checksum anchors, now that every field is known. */
    method FinishLayout(def: LayoutDefinition, isMessage: bool, g: Progress) returns (r: Result<Layout, CompileError>)
      requires Going(def, g) && |g.fields| == |def.fields|
      ensures r.Ok? ==> LayoutSound(P(), d, def, r.value) && RefersOnlyTo(r.value.fields, order) && r.value.isMessage == isMessage
      ensures r.Err? ==> !r.error.RecursiveStruct?
    {
      var layout := Layout(isMessage, g.minimumSize, g.fixed, isMessage && def.allowTrailing, g.prefix, g.fields, []);
      var checksums := ResolveChecksums(layout, g.pending, g.ids);
      if checksums.Err? {
        return Err(checksums.error);
      }
      NamesFromIds(g.ids, g.fields);
      return Ok(layout.(checksums := checksums.value));
    }
  }

  // ----- No struct contains itself -----

  lemma {:induction false} NestsMonotone(p: Protocol, l: Layout, depth: nat, more: nat)
    requires NestsWithin(p, l, depth) && depth <= more
    ensures NestsWithin(p, l, more)
    decreases depth
  {
    forall f, id | f in l.fields && id in References(f) && id < |p.structs|
      ensures more > 0 && NestsWithin(p, p.structs[id], more - 1)
    {
      NestsMonotone(p, p.structs[id], depth - 1, more - 1);
    }
  }

  /** A layout that refers only to finished structs nests to a finite depth. */
  lemma {:induction false} OrderNests(d: Definition, p: Protocol, order: seq<nat>, l: Layout, k: nat)
    requires AllFinished(d, p, order) && k <= |order| && RefersOnlyTo(l.fields, order[..k])
    ensures NestsWithin(p, l, k)
    decreases k
  {
    forall f, id | f in l.fields && id in References(f) && id < |p.structs|
      ensures k > 0 && NestsWithin(p, p.structs[id], k - 1)
    {
      var i :| 0 <= i < |l.fields| && l.fields[i] == f;
      assert id in order[..k];
      var j :| 0 <= j < k && order[j] == id;
      assert Finished(d, p, order, j);
      OrderNests(d, p, order, p.structs[id], j);
      NestsMonotone(p, p.structs[id], j, k - 1);
    }
  }

  lemma ReferenceDescends(d: Definition, p: Protocol, order: seq<nat>, a: nat, i: nat, j: nat) returns (b: nat)
    requires AllFinished(d, p, order) && a < |order| && order[a] < |d.structs| && i < |d.structs[order[a]].fields|
    requires RefersTo(d, d.structs[order[a]].fields[i], j)
    ensures b < a && order[b] == j
  {
    assert Finished(d, p, order, a);
    var f, l := d.structs[order[a]].fields[i], p.structs[order[a]];
    var name :| name in TypeNames(d, f) && StructId(d, name) == Some(j);
    assert FieldSound(p, d, f, l.fields, i);
    assert j in References(l.fields[i]) && j in order[..a];
    b :| 0 <= b < a && order[..a][b] == j;
  }

  /** A finished struct's definition refers only to structs finished before it. */
  lemma EdgeDescends(d: Definition, p: Protocol, order: seq<nat>, a: nat, j: nat) returns (b: nat)
    requires AllFinished(d, p, order) && a < |order| && Edge(d, order[a], j)
    ensures b < a && order[b] == j
  {
    var def := d.structs[order[a]];
    var f :| f in def.fields && RefersTo(d, f, j);
    var i :| 0 <= i < |def.fields| && def.fields[i] == f;
    b := ReferenceDescends(d, p, order, a, i, j);
  }

  lemma {:induction false} PathDescends(d: Definition, p: Protocol, order: seq<nat>, path: seq<nat>, k: nat, a: nat) returns (b: nat)
    requires AllFinished(d, p, order) && IsPath(d, path) && k < |path| && a < |order| && order[a] == path[0]
    ensures b <= a && b < |order| && order[b] == path[k] && (k > 0 ==> b < a)
    decreases k
  {
    if k == 0 {
      b := a;
    } else {
      var c := PathDescends(d, p, order, path, k - 1, a);
      assert Leads(d, path, k - 1);
      b := EdgeDescends(d, p, order, c, path[k]);
    }
  }

  lemma FirstIndex(order: seq<nat>, id: nat) returns (a: nat)
    requires id in order
    ensures a < |order| && order[a] == id && id !in order[..a]
  {
    a := 0;
    while order[a] != id
      invariant a < |order| && id !in order[..a] && id in order[a..]
      decreases |order| - a
    {
      assert order[a..] == [order[a]] + order[a + 1..];
      assert order[..a + 1] == order[..a] + [order[a]];
      a := a + 1;
    }
  }

  /** When every struct has been finished, none leads back to itself. */
  lemma FinishedIsAcyclic(d: Definition, p: Protocol, order: seq<nat>)
    requires AllFinished(d, p, order) && forall id | 0 <= id < |d.structs| :: id in order
    ensures !Cyclic(d)
  {
    forall path: seq<nat> | |path| >= 2 && IsPath(d, path)
      ensures path[0] != path[|path| - 1]
    {
      assert path[0] < |d.structs|;
      var a := FirstIndex(order, path[0]);
      var b := PathDescends(d, p, order, path, |path| - 1, a);
      assert order[..a][b] == order[b] && order[b] in order[..a];
    }
  }

  // ----- Compiling a protocol -----

  datatype CompiledProtocol = CompiledProtocol(protocol: Protocol, messages: seq<Layout>)

  /** Names of enums, structs and messages are present and different; enums have usable widths. */
  method ValidateNames(d: Definition) returns (problem: Option<CompileError>)
    ensures problem.None? ==> EnumsUsable(d)
    ensures problem.None? ==> forall i, j | 0 <= i < j < |d.structs| :: d.structs[i].name != d.structs[j].name
    ensures problem != Some(RecursiveStruct)
  {
    var names: set<Name> := {};
    for k := 0 to |d.enums|
      invariant forall j | 0 <= j < k :: ScalarWidth(d.enums[j].width)
    {
      var e := d.enums[k];
      if e.name.text == "" {
        return Some(BadName);
      }
      if e.name in names {
        return Some(DuplicateName);
      }
      names := names + {e.name};
      if !ScalarWidth(e.width) {
        return Some(BadWidth);
      }
    }
    for k := 0 to |d.structs|
      invariant forall j | 0 <= j < k :: d.structs[j].name in names
      invariant forall i, j | 0 <= i < j < k :: d.structs[i].name != d.structs[j].name
    {
      var name := d.structs[k].name;
      if name.text == "" {
        return Some(BadName);
      }
      if name in names {
        return Some(DuplicateName);
      }
      names := names + {name};
    }
    for k := 0 to |d.messages| {
      var name := d.messages[k].name;
      if name.text == "" {
        return Some(BadName);
      }
      if name in names {
        return Some(DuplicateName);
      }
      names := names + {name};
    }
    return None;
  }

  /** Everything the codec and the decoder trust about a compiled protocol. */
  ghost predicate Trustworthy(d: Definition, c: CompiledProtocol) {
    && |c.protocol.structs| == |d.structs| && |c.messages| == |d.messages|
    && (forall id | 0 <= id < |d.structs| :: LayoutSound(c.protocol, d, d.structs[id], c.protocol.structs[id]) && Compiled(c.protocol, c.protocol.structs[id]))
    && (forall k | 0 <= k < |d.messages| ::
          LayoutSound(c.protocol, d, d.messages[k], c.messages[k]) && c.messages[k].isMessage && Compiled(c.protocol, c.messages[k]))
  }

  /** Compiles every struct, then every message. */
  method Compile(d: Definition, widths: map<string, nat>, registry: Registry, maxFields: nat)
    returns (r: Result<CompiledProtocol, CompileError>)
    ensures r.Ok? ==> !Cyclic(d)
    ensures r == Err(RecursiveStruct) ==> Cyclic(d)
    ensures r.Ok? && AllSane(d) ==> Trustworthy(d, r.value)
  {
    var problem := ValidateNames(d);
    if problem.Some? {
      return Err(problem.value);
    }
    var compiler := new ProtocolCompiler(d, widths, registry, maxFields);
    var finished := CompileStructs(compiler);
    if finished.Some? {
      return Err(finished.value);
    }
    FinishedIsAcyclic(d, compiler.P(), compiler.order);
    r := CompileMessages(compiler);
  }

  method CompileStructs(compiler: ProtocolCompiler) returns (problem: Option<CompileError>)
    requires compiler.Valid() && compiler.stack == []
    modifies compiler
    ensures problem.None? ==> compiler.Valid() && compiler.stack == [] && forall id | 0 <= id < |compiler.d.structs| :: id in compiler.order
    ensures problem == Some(RecursiveStruct) ==> Cyclic(compiler.d)
  {
    for id := 0 to |compiler.d.structs|
      invariant compiler.Valid() && compiler.stack == [] && forall k | 0 <= k < id :: k in compiler.order
    {
      var compiled := compiler.CompileStruct(id);
      if compiled.Err? {
        return Some(compiled.error);
      }
    }
    return None;
  }

  /** The messages compiled so far are sound and refer only to finished structs. */
  ghost predicate MessagesSound(d: Definition, p: Protocol, order: seq<nat>, messages: seq<Layout>) {
    |messages| <= |d.messages| && forall k | 0 <= k < |messages| :: MessageSound(d, p, order, d.messages[k], messages[k])
  }

  ghost predicate MessageSound(d: Definition, p: Protocol, order: seq<nat>, def: LayoutDefinition, m: Layout) {
    LayoutSound(p, d, def, m) && RefersOnlyTo(m.fields, order) && m.isMessage
  }

  method CompileMessages(compiler: ProtocolCompiler) returns (r: Result<CompiledProtocol, CompileError>)
    requires compiler.Valid() && compiler.stack == [] && forall id | 0 <= id < |compiler.d.structs| :: id in compiler.order
    modifies compiler
    ensures r == Err(RecursiveStruct) ==> Cyclic(compiler.d)
    ensures r.Ok? && AllSane(compiler.d) ==> Trustworthy(compiler.d, r.value)
  {
    var messages: seq<Layout> := [];
    for k := 0 to |compiler.d.messages|
      invariant compiler.Valid() && compiler.stack == [] && |messages| == k
      invariant forall id | 0 <= id < |compiler.d.structs| :: id in compiler.order
      invariant MessagesSound(compiler.d, compiler.P(), compiler.order, messages)
    {
      ghost var p, done := compiler.P(), compiler.order;
      var compiled := compiler.CompileLayout(compiler.d.messages[k], true);
      if compiled.Err? {
        return Err(compiled.error);
      }
      MessagesAfter(compiler.d, p, compiler.P(), done, compiler.order, messages);
      messages := messages + [compiled.value];
    }
    if AllSane(compiler.d) {
      AllTrustworthy(compiler.d, compiler.P(), compiler.order, messages);
    }
    return Ok(CompiledProtocol(Protocol(compiler.structs, compiler.registry), messages));
  }

  lemma RefersToMore(fields: seq<Field>, ids: seq<nat>, more: seq<nat>)
    requires RefersOnlyTo(fields, ids) && ids <= more
    ensures RefersOnlyTo(fields, more)
  {
    forall k, id | 0 <= k < |fields| && id in References(fields[k])
      ensures id in more
    {
      assert id in ids && ids == more[..|ids|];
    }
  }

  lemma MessagesAfter(d: Definition, p: Protocol, p': Protocol, done: seq<nat>, order: seq<nat>, messages: seq<Layout>)
    requires MessagesSound(d, p, done, messages) && SameDone(p.structs, p'.structs, done) && done <= order
    ensures MessagesSound(d, p', order, messages)
  {
    forall k | 0 <= k < |messages|
      ensures MessageSound(d, p', order, d.messages[k], messages[k])
    {
      assert MessageSound(d, p, done, d.messages[k], messages[k]);
      RefersToMore(messages[k].fields, done, order);
      SoundAfter(d, p, p', done, d.messages[k], messages[k]);
    }
  }

  lemma AllTrustworthy(d: Definition, p: Protocol, order: seq<nat>, messages: seq<Layout>)
    requires AllSane(d) && AllFinished(d, p, order) && |p.structs| == |d.structs|
    requires forall id | 0 <= id < |d.structs| :: id in order
    requires MessagesSound(d, p, order, messages) && |messages| == |d.messages|
    ensures Trustworthy(d, CompiledProtocol(p, messages))
  {
    forall id | 0 <= id < |d.structs|
      ensures StructWellFormed(p, id) && Acyclic(p, p.structs[id]) && LayoutSound(p, d, d.structs[id], p.structs[id])
    {
      assert id in order;
      var k :| 0 <= k < |order| && order[k] == id;
      assert Finished(d, p, order, k) && d.structs[id] in d.structs;
      SaneIsWellFormed(p, d, d.structs[id], p.structs[id]);
      OrderNests(d, p, order, p.structs[id], k);
    }
    assert StructsWellFormed(p);
    forall k | 0 <= k < |messages|
      ensures Compiled(p, messages[k])
    {
      assert MessageSound(d, p, order, d.messages[k], messages[k]) && d.messages[k] in d.messages;
      SaneIsWellFormed(p, d, d.messages[k], messages[k]);
      assert order[..|order|] == order;
      OrderNests(d, p, order, messages[k], |order|);
    }
  }
}
