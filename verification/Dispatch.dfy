/** Picking the message a frame belongs to: an index by first byte in front of the messages' own decoding. */
module Dispatch {
  import opened Prelude
  import opened Bytes
  import opened Metadata
  import Codec
  import opened SchemaLayouts
  import opened BorrowedDecoder
  import BorrowedSizes

  datatype Verdict = Decoded | MessageNotFound | Failed(status: Status)

  /** Decoding a frame as one particular message. */
  function DecodeAs(p: Protocol, m: Layout, frame: seq<byte>): (r: Verdict)
    requires Compiled(p, m)
  {
    match Assign(p, m, frame, false)
    case Accepted(_, _) => Decoded
    case Rejected(status) => Failed(status)
  }

  predicate MatchesPrefix(m: Layout, frame: seq<byte>) {
    m.dispatchPrefix == [] || (|m.dispatchPrefix| <= |frame| && frame[..|m.dispatchPrefix|] == m.dispatchPrefix)
  }

  ghost predicate AllCompiled(p: Protocol, messages: seq<Layout>) {
    forall k | 0 <= k < |messages| :: Compiled(p, messages[k])
  }

  // ----- The index -----

  /** Only messages whose prefix starts with `b` are filed under it. */
  ghost predicate Filed(messages: seq<Layout>, byFirst: seq<seq<nat>>, b: nat)
    requires |byFirst| == 256 && b < 256
  {
    forall j | 0 <= j < |byFirst[b]| ::
      byFirst[b][j] < |messages| && messages[byFirst[b][j]].dispatchPrefix != [] && messages[byFirst[b][j]].dispatchPrefix[0] == b
  }

  /** Only messages without a prefix are fallbacks. */
  ghost predicate IsFallback(messages: seq<Layout>, fallback: seq<nat>) {
    forall j | 0 <= j < |fallback| :: fallback[j] < |messages| && messages[fallback[j]].dispatchPrefix == []
  }

  /** Message `k` is where a look-up would find it. */
  ghost predicate Indexed(messages: seq<Layout>, byFirst: seq<seq<nat>>, fallback: seq<nat>, k: nat)
    requires k < |messages| && |byFirst| == 256
  {
    if messages[k].dispatchPrefix == [] then k in fallback else k in byFirst[messages[k].dispatchPrefix[0]]
  }

  /** The first `n` messages are indexed. */
  ghost predicate IndexedUpTo(messages: seq<Layout>, byFirst: seq<seq<nat>>, fallback: seq<nat>, n: nat) {
    && n <= |messages| && |byFirst| == 256
    && (forall b | 0 <= b < 256 :: Filed(messages, byFirst, b))
    && IsFallback(messages, fallback)
    && (forall k | 0 <= k < n :: Indexed(messages, byFirst, fallback, k))
  }

  lemma FallbackAdded(messages: seq<Layout>, byFirst: seq<seq<nat>>, fallback: seq<nat>, n: nat)
    requires n < |messages| && IndexedUpTo(messages, byFirst, fallback, n) && messages[n].dispatchPrefix == []
    ensures IndexedUpTo(messages, byFirst, fallback + [n], n + 1)
  {
    forall k | 0 <= k < n + 1
      ensures Indexed(messages, byFirst, fallback + [n], k)
    {
      if k < n {
        assert Indexed(messages, byFirst, fallback, k);
      }
    }
  }

  lemma CandidateAdded(messages: seq<Layout>, byFirst: seq<seq<nat>>, fallback: seq<nat>, n: nat, first: nat)
    requires n < |messages| && IndexedUpTo(messages, byFirst, fallback, n)
    requires messages[n].dispatchPrefix != [] && first == messages[n].dispatchPrefix[0]
    ensures IndexedUpTo(messages, byFirst[first := byFirst[first] + [n]], fallback, n + 1)
  {
    var longer := byFirst[first := byFirst[first] + [n]];
    forall k | 0 <= k < n + 1
      ensures Indexed(messages, longer, fallback, k)
    {
      if k < n {
        assert Indexed(messages, byFirst, fallback, k);
      }
    }
    forall b | 0 <= b < 256
      ensures Filed(messages, longer, b)
    {
      assert Filed(messages, byFirst, b);
    }
  }

  /** The messages a frame with this first byte may be, and those that may be any frame. */
  class DispatchIndex {
    const messages: seq<Layout>
    var byFirst: seq<seq<nat>>
    var fallback: seq<nat>

    ghost predicate Valid()
      reads this
    {
      IndexedUpTo(messages, byFirst, fallback, |messages|)
    }

    constructor (messages: seq<Layout>)
      ensures this.messages == messages && Valid()
    {
      this.messages := messages;
      byFirst := seq(256, _ => []);
      fallback := [];
      new;
      for n := 0 to |messages|
        invariant IndexedUpTo(messages, byFirst, fallback, n)
      {
        var prefix := messages[n].dispatchPrefix;
        if prefix == [] {
          FallbackAdded(messages, byFirst, fallback, n);
          fallback := fallback + [n];
        } else {
          var first: nat := prefix[0];
          CandidateAdded(messages, byFirst, fallback, n, first);
          byFirst := byFirst[first := byFirst[first] + [n]];
        }
      }
    }

    /** The messages indexed under a frame's first byte. */
    function Candidates(frame: seq<byte>): (r: seq<nat>)
      requires |byFirst| == 256
      reads this
    {
      if frame == [] then [] else byFirst[frame[0]]
    }
  }

  ghost predicate InRange(messages: seq<Layout>, ids: seq<nat>) {
    forall j | 0 <= j < |ids| :: ids[j] < |messages|
  }

  ghost predicate Tried(messages: seq<Layout>, ids: seq<nat>, frame: seq<byte>, j: nat)
    requires InRange(messages, ids) && j < |ids|
  {
    MatchesPrefix(messages[ids[j]], frame)
  }

  ghost predicate Hit(p: Protocol, messages: seq<Layout>, ids: seq<nat>, frame: seq<byte>, j: nat)
    requires AllCompiled(p, messages) && InRange(messages, ids) && j < |ids|
  {
    MatchesPrefix(messages[ids[j]], frame) && DecodeAs(p, messages[ids[j]], frame).Decoded?
  }

  /** Tries the candidates in turn; the first that decodes ends the search. */
  method TryCandidates(p: Protocol, messages: seq<Layout>, ids: seq<nat>, frame: seq<byte>, worst: Verdict)
    returns (best: Verdict, attempted: bool)
    requires AllCompiled(p, messages) && InRange(messages, ids) && !worst.Decoded?
    ensures best.Decoded? <==> exists j :: 0 <= j < |ids| && Hit(p, messages, ids, frame, j)
    ensures best.Decoded? ==> attempted
    ensures !attempted ==> best == worst && forall j | 0 <= j < |ids| :: !Tried(messages, ids, frame, j)
  {
    best, attempted := worst, false;
    for n := 0 to |ids|
      invariant !best.Decoded?
      invariant forall j | 0 <= j < n :: !Hit(p, messages, ids, frame, j)
      invariant !attempted ==> best == worst && forall j | 0 <= j < n :: !Tried(messages, ids, frame, j)
    {
      var m := messages[ids[n]];
      if !MatchesPrefix(m, frame) {
        continue;
      }
      attempted := true;
      var verdict := DecodeAs(p, m, frame);
      if verdict.Decoded? {
        assert Hit(p, messages, ids, frame, n);
        best := Decoded;
        return;
      }
      if best.MessageNotFound? || best == Failed(SchemaMismatch) {
        best := verdict;
      }
    }
  }

  /** Message `k` takes the frame, its prefix included. */
  ghost predicate Takes(p: Protocol, messages: seq<Layout>, frame: seq<byte>, k: nat)
    requires AllCompiled(p, messages) && k < |messages|
  {
    MatchesPrefix(messages[k], frame) && DecodeAs(p, messages[k], frame).Decoded?
  }

  /** Decodes a frame as whichever message it is: first those indexed under its first byte, then those
      without a prefix. */
  method DecodeAny(p: Protocol, index: DispatchIndex, frame: seq<byte>) returns (r: Verdict)
    requires index.Valid() && AllCompiled(p, index.messages)
    ensures r.Decoded? <==> exists k: nat :: k < |index.messages| && Takes(p, index.messages, frame, k)
  {
    var first := index.Candidates(frame);
    assert InRange(index.messages, first) by {
      if frame != [] {
        assert Filed(index.messages, index.byFirst, frame[0]);
      }
    }
    var best, attempted := TryCandidates(p, index.messages, first, frame, MessageNotFound);
    if best.Decoded? {
      ghost var j :| 0 <= j < |first| && Hit(p, index.messages, first, frame, j);
      assert Takes(p, index.messages, frame, first[j]);
      return best;
    }
    var again;
    best, again := TryCandidates(p, index.messages, index.fallback, frame, best);
    if best.Decoded? {
      ghost var j :| 0 <= j < |index.fallback| && Hit(p, index.messages, index.fallback, frame, j);
      assert Takes(p, index.messages, frame, index.fallback[j]);
    } else {
      NoneTakes(p, index, frame, first);
    }
    r := if attempted || again then best else MessageNotFound;
  }

  lemma NoneTakes(p: Protocol, index: DispatchIndex, frame: seq<byte>, first: seq<nat>)
    requires index.Valid() && AllCompiled(p, index.messages) && first == index.Candidates(frame)
    requires InRange(index.messages, first) && InRange(index.messages, index.fallback)
    requires forall j | 0 <= j < |first| :: !Hit(p, index.messages, first, frame, j)
    requires forall j | 0 <= j < |index.fallback| :: !Hit(p, index.messages, index.fallback, frame, j)
    ensures forall k: nat | k < |index.messages| :: !Takes(p, index.messages, frame, k)
  {
    forall k: nat | k < |index.messages|
      ensures !Takes(p, index.messages, frame, k)
    {
      if MatchesPrefix(index.messages[k], frame) {
        assert Indexed(index.messages, index.byFirst, index.fallback, k);
        var prefix := index.messages[k].dispatchPrefix;
        if prefix == [] {
          var j :| 0 <= j < |index.fallback| && index.fallback[j] == k;
          assert !Hit(p, index.messages, index.fallback, frame, j);
        } else {
          assert frame[0] == frame[..|prefix|][0] == prefix[0];
          var j :| 0 <= j < |first| && first[j] == k;
          assert !Hit(p, index.messages, first, frame, j);
        }
      }
    }
  }

  // ----- When the index agrees with trying every message -----

  /** Constants met so far lie at the front of an accepted frame. */
  lemma ConstantInFrame(p: Protocol, l: Layout, frame: seq<byte>, i: nat, slots: seq<Slot>, offset: nat, next: Outcome)
    requires Compiled(p, l) && i < |l.fields| && AssignField(p, l, frame, i, slots, offset) == next && next.Accepted?
    requires var f := l.fields[i]; Constant(f) && !f.Gated() && AlignUp(offset, f.alignment) == offset
    ensures var f := l.fields[i];
            next.consumed == offset + f.width <= |frame| && frame[offset..offset + f.width] == ConstantBytes(f)
  {
    assert FieldWellFormed(p, l, i);
    BorrowedSizes.StepOf(p, l, frame, i, slots, offset, next);
    var f := l.fields[i];
    var bytes := frame[offset..offset + f.width];
    assert FromBytes(bytes, f.order) == f.expected;
    WriteRead(bytes, f.order);
    assert f.expected < Pow256(f.width);
    Modest(f.expected, Pow256(f.width));
  }

  /** A constant of the run lies where the run says. */
  lemma RunNext(p: Protocol, l: Layout, frame: seq<byte>, i: nat)
    requires Compiled(p, l) && i < |l.fields| && Constant(l.fields[i]) && !l.fields[i].Gated()
    requires AssignFields(p, l, frame, i).Accepted? && AssignFields(p, l, frame, i + 1).Accepted?
    requires AlignUp(AssignFields(p, l, frame, i).consumed, l.fields[i].alignment) == AssignFields(p, l, frame, i).consumed
    ensures var offset, end := AssignFields(p, l, frame, i).consumed, AssignFields(p, l, frame, i + 1).consumed;
            offset + l.fields[i].width == end <= |frame| && frame[offset..end] == ConstantBytes(l.fields[i])
  {
    var before := AssignFields(p, l, frame, i);
    ConstantInFrame(p, l, frame, i, before.slots, before.consumed, AssignFields(p, l, frame, i + 1));
  }

  /** The leading constants among fields `i` to `n` follow one another in the frame. */
  lemma {:induction false} RunInFrame(p: Protocol, l: Layout, frame: seq<byte>, i: nat, n: nat)
    requires Compiled(p, l) && i <= n <= |l.fields| && AssignFields(p, l, frame, |l.fields|).Accepted?
    requires AssignFields(p, l, frame, i).Accepted? && PackedRun(l.fields[i..n], AssignFields(p, l, frame, i).consumed)
    ensures RunAt(frame, AssignFields(p, l, frame, i).consumed, LeadingBytes(l.fields[i..n]))
    decreases n - i
  {
    if i < n && Constant(l.fields[i]) {
      EachAccepted(p, l, frame, i + 1, |l.fields|);
      RunStarts(l.fields, i, n, AssignFields(p, l, frame, i).consumed);
      RunNext(p, l, frame, i);
      RunInFrame(p, l, frame, i + 1, n);
      JoinRuns(frame, AssignFields(p, l, frame, i).consumed, AssignFields(p, l, frame, i + 1).consumed,
               ConstantBytes(l.fields[i]), LeadingBytes(l.fields[i + 1..n]));
    } else {
      NoRun(frame, AssignFields(p, l, frame, i).consumed, l.fields[i..n]);
    }
  }

  lemma {:induction false} EachAccepted(p: Protocol, l: Layout, frame: seq<byte>, i: nat, n: nat)
    requires Compiled(p, l) && i <= n <= |l.fields| && AssignFields(p, l, frame, n).Accepted?
    ensures AssignFields(p, l, frame, i).Accepted?
    decreases n
  {
    if i < n {
      EachAccepted(p, l, frame, i, n - 1);
    }
  }

  /** Every frame a message accepts starts with its dispatch prefix. */
  lemma AcceptedMatchesPrefix(p: Protocol, m: Layout, frame: seq<byte>)
    requires Compiled(p, m) && PrefixSound(m) && DecodeAs(p, m, frame).Decoded?
    ensures MatchesPrefix(m, frame)
  {
    var n: nat :| n <= |m.fields| && SpellsOut(m, n);
    assert m.fields[0..n] == m.fields[..n];
    assert AssignFields(p, m, frame, 0) == Accepted([], 0);
    RunInFrame(p, m, frame, 0, n);
    FrontOfRun(frame, LeadingBytes(m.fields[..n]), m.dispatchPrefix);
  }

  ghost predicate AllPacked(messages: seq<Layout>) {
    forall k | 0 <= k < |messages| :: PrefixSound(messages[k])
  }

  /** With packed, ungated leading constants the index finds a message exactly when some message decodes
      the frame. */
  lemma IndexAgreesWithScan(p: Protocol, messages: seq<Layout>, frame: seq<byte>)
    requires AllCompiled(p, messages) && AllPacked(messages)
    ensures (exists k: nat :: k < |messages| && Takes(p, messages, frame, k))
            <==> (exists k: nat :: k < |messages| && DecodeAs(p, messages[k], frame).Decoded?)
  {
    forall k: nat | k < |messages| && DecodeAs(p, messages[k], frame).Decoded?
      ensures Takes(p, messages, frame, k)
    {
      AcceptedMatchesPrefix(p, messages[k], frame);
    }
    if k: nat :| k < |messages| && Takes(p, messages, frame, k) {
      assert DecodeAs(p, messages[k], frame).Decoded?;
    }
  }

  // ----- Which other messages are found -----

  /** The length of the leading run of constants. */
  function RunLength(fields: seq<Field>): (n: nat)
    ensures n <= |fields|
  {
    if fields == [] || !Constant(fields[0]) then 0 else 1 + RunLength(fields[1..])
  }

  /** Where the prefix takes constant `i` of the run to lie. */
  function RunOffset(fields: seq<Field>, i: nat): nat
    requires i <= |fields|
  {
    |LeadingBytes(fields[..i])|
  }

  /** Constant `i` of the run is spelled out where the prefix takes it to lie. */
  predicate SpelledAt(fields: seq<Field>, frame: seq<byte>, i: nat)
    requires i < |fields|
  {
    RunAt(frame, RunOffset(fields, i), ConstantBytes(fields[i]))
  }

  predicate AllSpelled(fields: seq<Field>, frame: seq<byte>, n: nat)
    requires n <= |fields|
  {
    forall i | 0 <= i < n :: SpelledAt(fields, frame, i)
  }

  lemma SplitRun(frame: seq<byte>, a: seq<byte>, b: seq<byte>)
    ensures RunAt(frame, 0, a + b) <==> RunAt(frame, 0, a) && RunAt(frame, |a|, b)
  {
    var n := |a| + |b|;
    if n <= |frame| {
      Adjoin(frame, 0, |a|, n);
      if frame[0..n] == a + b {
        assert frame[0..|a|] == frame[0..n][..|a|] == a && frame[|a|..n] == frame[0..n][|a|..] == b;
      }
    }
  }

  /** The first `n` constants of the run lie in the frame end to end exactly when each of them does. */
  lemma {:induction false} RunPiecewise(fields: seq<Field>, frame: seq<byte>, n: nat)
    requires n <= RunLength(fields)
    ensures RunAt(frame, 0, LeadingBytes(fields[..n])) <==> AllSpelled(fields, frame, n)
    decreases n
  {
    if n == 0 {
      assert fields[..0] == [] && frame[0..0] == [];
    } else {
      RunPiecewise(fields, frame, n - 1);
      RunGrows(fields, n - 1);
      SplitRun(frame, LeadingBytes(fields[..n - 1]), ConstantBytes(fields[n - 1]));
      assert SpelledAt(fields, frame, n - 1) <==> RunAt(frame, RunOffset(fields, n - 1), ConstantBytes(fields[n - 1]));
      assert AllSpelled(fields, frame, n) <==> AllSpelled(fields, frame, n - 1) && SpelledAt(fields, frame, n - 1);
    }
  }

  lemma RunGrows(fields: seq<Field>, n: nat)
    requires n < RunLength(fields)
    ensures LeadingBytes(fields[..n + 1]) == LeadingBytes(fields[..n]) + ConstantBytes(fields[n])
  {
    assert fields[..n + 1] == fields[..n] + [fields[n]];
    RunIsConstant(fields, n);
    forall k | 0 <= k < n
      ensures Constant(fields[..n][k])
    {
      RunIsConstant(fields, k);
    }
    LeadingGrows(fields[..n], fields[n]);
  }

  /** Behind the run nothing is taken into the prefix. */
  lemma {:induction false} RunIsAll(fields: seq<Field>)
    ensures LeadingBytes(fields) == LeadingBytes(fields[..RunLength(fields)])
  {
    var n := RunLength(fields);
    if n > 0 {
      RunIsAll(fields[1..]);
      assert fields[..n][1..] == fields[1..][..n - 1] && fields[..n][0] == fields[0];
    } else {
      assert fields[..0] == [];
    }
  }

  /** An accepted field `i` is present and lies where the prefix takes it to lie. */
  ghost predicate InPlace(p: Protocol, m: Layout, frame: seq<byte>, i: nat)
    requires Compiled(p, m) && i < |m.fields|
  {
    var r := AssignFields(p, m, frame, |m.fields|);
    r.Accepted? && r.slots[i].present && r.slots[i].offset == RunOffset(m.fields, i)
  }

  lemma InPlaceIsSpelled(p: Protocol, m: Layout, frame: seq<byte>, i: nat)
    requires Compiled(p, m) && i < |m.fields| && Constant(m.fields[i]) && InPlace(p, m, frame, i)
    ensures SpelledAt(m.fields, frame, i)
  {
    var n := |m.fields|;
    EachAccepted(p, m, frame, i + 1, n);
    var next := AssignFields(p, m, frame, i + 1);
    SlotsStay(p, m, frame, i + 1, n);
    var before := AssignFields(p, m, frame, i);
    EachAccepted(p, m, frame, i, n);
    BorrowedSizes.StepOf(p, m, frame, i, before.slots, before.consumed, next);
    assert FieldWellFormed(p, m, i);
    var f, slot := m.fields[i], next.slots[i];
    var bytes := frame[slot.offset..next.consumed];
    WriteRead(bytes, f.order);
    Modest(f.expected, Pow256(f.width));
  }

  /** Later fields leave the slots of earlier ones as they are. */
  lemma {:induction false} SlotsStay(p: Protocol, m: Layout, frame: seq<byte>, i: nat, n: nat)
    requires Compiled(p, m) && i <= n <= |m.fields| && AssignFields(p, m, frame, n).Accepted?
    ensures AssignFields(p, m, frame, i).Accepted?
    ensures AssignFields(p, m, frame, n).slots[..i] == AssignFields(p, m, frame, i).slots
    decreases n
  {
    if i < n {
      var prev := AssignFields(p, m, frame, n - 1);
      BorrowedSizes.StepOf(p, m, frame, n - 1, prev.slots, prev.consumed, AssignFields(p, m, frame, n));
      SlotsStay(p, m, frame, i, n - 1);
      var slots := AssignFields(p, m, frame, n).slots;
      assert slots[..i] == slots[..n - 1][..i];
    } else {
      var slots := AssignFields(p, m, frame, n).slots;
      assert slots[..i] == slots;
    }
  }

  lemma {:induction false} RunIsConstant(fields: seq<Field>, i: nat)
    requires i < RunLength(fields)
    ensures i < |fields| && Constant(fields[i])
  {
    if i > 0 {
      RunIsConstant(fields[1..], i - 1);
    }
  }

  /** For any compiled message, packed or not: a frame it accepts is found under its prefix if and only if every
      constant of the leading run that is absent or lies elsewhere happens to be spelled out where the prefix
      takes it to lie. */
  lemma FoundExactly(p: Protocol, m: Layout, frame: seq<byte>)
    requires Compiled(p, m) && m.dispatchPrefix == LeadingBytes(m.fields) && DecodeAs(p, m, frame).Decoded?
    ensures MatchesPrefix(m, frame)
            <==> forall i | 0 <= i < RunLength(m.fields) && !InPlace(p, m, frame, i) :: SpelledAt(m.fields, frame, i)
  {
    RunPiecewise(m.fields, frame, RunLength(m.fields));
    RunIsAll(m.fields);
    assert RunAt(frame, 0, m.dispatchPrefix) <==> MatchesPrefix(m, frame) by {
      assert |m.dispatchPrefix| <= |frame| ==> frame[0..|m.dispatchPrefix|] == frame[..|m.dispatchPrefix|];
    }
    forall i | 0 <= i < RunLength(m.fields) && InPlace(p, m, frame, i)
      ensures SpelledAt(m.fields, frame, i)
    {
      RunIsConstant(m.fields, i);
      InPlaceIsSpelled(p, m, frame, i);
    }
  }

  // ----- A message the index cannot find -----

  /** A byte that must be 1, then a byte that must be 2 but is there only when the first byte is 9. */
  function GatedConstants(): Layout {
    var first := Field(0, Name("kind"), Unsigned, 1, LittleEndian, Ascii, 0, false, 0, 0, 1, false, 0, 0, false, 0,
                       false, 0, 0, false, 0, 0, 0, [], true, 1);
    var second := Field(1, Name("extra"), Unsigned, 1, LittleEndian, Ascii, 0, false, 0, 0, 1, false, 0, 0, false, 0,
                        true, 0, 9, false, 0, 0, 0, [], true, 2);
    Layout(true, 1, false, false, LeadingBytes([first, second]), [first, second], [])
  }

  lemma GatedConstantsCompile(p: Protocol, m: Layout)
    requires p.structs == [] && m == GatedConstants()
    ensures Compiled(p, m) && !PackedRun(m.fields, 0) && |m.dispatchPrefix| == 2
  {
    forall f | f in m.fields
      ensures References(f) == {}
    {
      assert f == m.fields[0] || f == m.fields[1];
    }
    assert NestsWithin(p, m, 0);
    assert FieldWellFormed(p, m, 0) && FieldWellFormed(p, m, 1);
    assert NamesDiffer(m.fields, 0, 1);
    assert MinimumPrefix(m.fields, 0) == 0 && MinimumPrefix(m.fields, 1) == 1;
    assert MinimumPrefix(m.fields, 2) == 1;
    assert m.fields[1..] == [m.fields[1]] && m.fields[1..][1..] == [];
    assert !PackedRun(m.fields[1..], 1);
    assert LeadingBytes(m.fields[1..][1..]) == [];
    assert LeadingBytes(m.fields[1..]) == ConstantBytes(m.fields[1]);
  }

  /** Its prefix takes in the gated byte, so the index turns down frames the message itself accepts. */
  lemma GatedConstantIsMissed(p: Protocol, m: Layout) returns (frame: seq<byte>)
    requires p.structs == [] && m == GatedConstants()
    ensures Compiled(p, m) && DecodeAs(p, m, frame).Decoded? && !MatchesPrefix(m, frame)
  {
    GatedConstantsCompile(p, m);
    var one: byte := 1;
    frame := [one];
    assert frame[0..1] == frame;
    assert LittleValue(frame[1..]) == 0;
    assert FromBytes(frame, LittleEndian) == 1;
    var first := Slot(true, 0, 1, Some(1));
    assert CachedRaw(m.fields[0], frame) == Some(1);
    StepPresentFirst(p, m, frame, first);
    BorrowedSizes.StepAbsent(p, m, frame, 1, [first], 1);
    assert AssignFields(p, m, frame, |m.fields|) == Accepted([first, Slot(false, 1, 0, None)], 1);
    assert CheckAll(p, m, frame, [first, Slot(false, 1, 0, None)], 0).None?;
  }

  lemma StepPresentFirst(p: Protocol, m: Layout, frame: seq<byte>, first: Slot)
    requires p.structs == [] && m == GatedConstants() && Compiled(p, m) && |frame| == 1 && frame[0..1] == frame
    requires CachedRaw(m.fields[0], frame) == Some(1) && first == Slot(true, 0, 1, Some(1))
    ensures AssignFields(p, m, frame, 1) == Accepted([first], 1)
  {
    assert AssignFields(p, m, frame, 0) == Accepted([], 0);
    assert FieldSize(p, m, frame, 0, [], 0) == Size(1);
    BorrowedSizes.StepPresent(p, m, frame, 0, [], 0, 1);
    assert [] + [first] == [first];
  }
}
