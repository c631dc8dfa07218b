/** What a message builder's calls mean: the frame they spell out, however it is stored. */
module MessageFrames {
  import opened Prelude
  import opened Bytes
  import opened Metadata
  import Checksums
  import Codec

  /** A setter call that went through: a scalar by its raw value, or a payload by its bytes. */
  datatype Call = SetScalar(id: nat, kind: Kind, raw: nat) | SetPayload(id: nat, text: bool, bytes: seq<byte>)

  /** The bytes so far, where each field written starts and ends, and the next field to write. */
  datatype Frame = Frame(bytes: seq<byte>, starts: map<nat, nat>, ends: map<nat, nat>, next: nat)

  const EMPTY := Frame([], map[], map[], 0)

  function Put(s: Frame, id: nat, bytes: seq<byte>): Frame {
    Frame(s.bytes + bytes, s.starts[id := |s.bytes|], s.ends[id := |s.bytes| + |bytes|], s.next)
  }

  /** A raw value cut to the width of a scalar. */
  function ScalarBytes(f: Field, raw: nat): (s: seq<byte>)
    ensures |s| == f.width
  {
    ToBytes(raw % Pow256(f.width), f.width, f.order)
  }

  /** The bytes of a field the builder fills in by itself: a checksum, a constant or a fill. */
  function AutoBytes(l: Layout, id: nat): (r: Option<seq<byte>>)
    requires id < |l.fields|
  {
    var f := l.fields[id];
    if Codec.IsChecksumField(l, id) then Some(Repeat(0, f.width))
    else if f.hasExpected then Some(ScalarBytes(f, f.expected))
    else if f.reserved then Some(Repeat(f.fill, f.fixedSize))
    else None
  }

  function Padded(l: Layout, s: Frame, id: nat): Frame
    requires id < |l.fields|
  {
    s.(bytes := s.bytes + Repeat(0, AlignUp(|s.bytes|, l.fields[id].alignment) - |s.bytes|))
  }

  /** Fills in the fields before `target` that have not been set. */
  function AdvanceTo(l: Layout, s: Frame, target: nat): (r: Option<Frame>)
    requires target <= |l.fields|
    ensures r.Some? ==> r.value.next == if target <= s.next then s.next else target
    decreases target
  {
    if target <= s.next then Some(s)
    else
      match AdvanceTo(l, s, target - 1)
      case None => None
      case Some(t) =>
        match AutoBytes(l, target - 1)
        case None => None
        case Some(bytes) => Some(Put(Padded(l, t, target - 1), target - 1, bytes).(next := target))
  }

  /** Filling in the fields up to `id` leads from one frame to another, but for the next field. */
  predicate Advanced(l: Layout, before: Frame, id: nat, after: Frame)
    requires before.next <= id <= |l.fields|
  {
    AdvanceTo(l, before, id) == Some(after.(next := id))
  }

  lemma AdvancedOne(l: Layout, before: Frame, id: nat, s: Frame, t: Frame)
    requires before.next <= id < |l.fields| && Advanced(l, before, id, s) && AutoBytes(l, id).Some?
    requires t == Put(Padded(l, s, id), id, AutoBytes(l, id).value)
    ensures Advanced(l, before, id + 1, t)
  {
  }

  /** Whether a setter may be called for this field now. */
  predicate Accepts(l: Layout, next: nat, call: Call) {
    call.id < |l.fields| && next <= call.id &&
    var f := l.fields[call.id];
    match call
    case SetScalar(_, kind, _) =>
      if kind.Unsigned? then f.Counter() else kind == f.kind && (kind.Signed? || kind.Float32? || kind.Float64?)
    case SetPayload(_, text, bytes) =>
      && (if text then f.kind.Text? else (f.kind.Raw? || f.kind.Nested?) && !f.reserved)
      && (f.dynamicSize || |bytes| == f.fixedSize)
  }

  function CallBytes(l: Layout, call: Call): seq<byte>
    requires call.id < |l.fields|
  {
    match call
    case SetScalar(id, _, raw) => ScalarBytes(l.fields[id], raw)
    case SetPayload(_, _, bytes) => bytes
  }

  /** The frame after one more call. */
  function Apply(l: Layout, s: Frame, call: Call): (r: Option<Frame>) {
    if !Accepts(l, s.next, call) then None
    else
      match AdvanceTo(l, s, call.id)
      case None => None
      case Some(t) => Some(Put(t, call.id, CallBytes(l, call)).(next := call.id + 1))
  }

  /** A call behind the fields filled in before it. */
  lemma ApplyFrom(l: Layout, s: Frame, t: Frame, call: Call)
    requires Accepts(l, s.next, call) && AdvanceTo(l, s, call.id) == Some(t)
    ensures Apply(l, s, call) == Some(Put(t, call.id, CallBytes(l, call)).(next := call.id + 1))
  {
  }

  /** The frame a list of calls spells out. */
  function Spelled(l: Layout, calls: seq<Call>): (r: Option<Frame>) {
    if calls == [] then Some(EMPTY)
    else
      match Spelled(l, calls[..|calls| - 1])
      case None => None
      case Some(s) => Apply(l, s, calls[|calls| - 1])
  }

  // ----- Where the fields lie -----

  /** What the builders need of a compiled layout. */
  ghost predicate Usable(l: Layout) {
    && ChecksumsWellFormed(l)
    && forall id | 0 <= id < |l.fields| && l.fields[id].reserved :: l.fields[id].kind.Raw?
  }

  lemma CompiledIsUsable(p: Protocol, l: Layout)
    requires Compiled(p, l)
    ensures Usable(l)
  {
    forall id | 0 <= id < |l.fields| && l.fields[id].reserved
      ensures l.fields[id].kind.Raw?
    {
      assert FieldWellFormed(p, l, id);
    }
  }

  /** Field `id` lies inside the frame; a counter has its width. */
  ghost predicate LaidAt(l: Layout, s: Frame, id: nat) {
    && id < |l.fields| && id in s.starts && id in s.ends && s.starts[id] <= s.ends[id] <= |s.bytes|
    && (l.fields[id].Counter() ==> s.ends[id] == s.starts[id] + l.fields[id].width)
  }

  ghost predicate Laid(l: Layout, s: Frame) {
    && s.next <= |l.fields|
    && (forall id: nat | id in s.starts || id in s.ends || id < s.next :: LaidAt(l, s, id))
  }

  lemma PutLaid(l: Layout, s: Frame, t: Frame, id: nat, bytes: seq<byte>)
    requires Laid(l, s) && s.next <= id < |l.fields| && t.starts == s.starts && t.ends == s.ends && |s.bytes| <= |t.bytes|
    requires forall k | s.next <= k < id :: LaidAt(l, t, k)
    requires l.fields[id].Counter() ==> |bytes| == l.fields[id].width
    ensures Laid(l, Put(t, id, bytes).(next := id + 1))
  {
    var u := Put(t, id, bytes).(next := id + 1);
    forall k: nat | k in u.starts || k in u.ends || k < u.next
      ensures LaidAt(l, u, k)
    {
      if k != id {
        assert LaidAt(l, s, k) || LaidAt(l, t, k);
      }
    }
  }

  lemma {:induction false} AdvanceLaid(l: Layout, s: Frame, target: nat)
    requires Laid(l, s) && Usable(l) && target <= |l.fields| && AdvanceTo(l, s, target).Some?
    ensures Laid(l, AdvanceTo(l, s, target).value)
    decreases target
  {
    if s.next < target {
      AdvanceLaid(l, s, target - 1);
      var t := AdvanceTo(l, s, target - 1).value;
      PutLaid(l, t, Padded(l, t, target - 1), target - 1, AutoBytes(l, target - 1).value);
    }
  }

  lemma {:induction false} SpelledLaid(l: Layout, calls: seq<Call>)
    requires Usable(l) && Spelled(l, calls).Some?
    ensures Laid(l, Spelled(l, calls).value)
    decreases |calls|
  {
    if calls != [] {
      var call := calls[|calls| - 1];
      var s := Spelled(l, calls[..|calls| - 1]).value;
      SpelledLaid(l, calls[..|calls| - 1]);
      AdvanceLaid(l, s, call.id);
      var t := AdvanceTo(l, s, call.id).value;
      PutLaid(l, t, t, call.id, CallBytes(l, call));
    }
  }

  lemma ChecksummedLaid(p: Protocol, l: Layout, s: Frame, k: nat)
    requires Laid(l, s) && k < |l.checksums| && ChecksumsWellFormed(l) && Checksummed(p, l, s, l.checksums[k]).Some?
    ensures Laid(l, Checksummed(p, l, s, l.checksums[k]).value)
  {
    assert ChecksumWellFormed(l, k);
    var id := l.checksums[k].fieldId;
    assert LaidAt(l, s, id);
    var t := Checksummed(p, l, s, l.checksums[k]).value;
    assert |t.bytes| == |s.bytes|;
    forall m: nat | m in t.starts || m in t.ends || m < t.next
      ensures LaidAt(l, t, m)
    {
      assert LaidAt(l, s, m);
    }
  }

  // ----- Checksums -----

  /** The value of a checksum; an algorithm without a function counts as zero. */
  function ChecksumValue(p: Protocol, algorithm: string, data: seq<byte>): nat {
    if algorithm == "xor8" then Checksums.Xor8(data)
    else if algorithm == "sum16" then Checksums.Sum16(data)
    else
      match p.registry(algorithm, data)
      case None => 0
      case Some(v) => v
  }

  function AnchorAt(a: Anchor, s: Frame): (r: Option<nat>) {
    match a.kind
    case FrameStart => Some(0)
    case FrameEnd => Some(|s.bytes|)
    case FieldStart => Noted(s.starts, a.fieldId)
    case BeforeSelf => Noted(s.starts, a.fieldId)
    case FieldEnd => Noted(s.ends, a.fieldId)
    case AfterSelf => Noted(s.ends, a.fieldId)
  }

  function Noted(offsets: map<nat, nat>, id: nat): Option<nat> {
    if id in offsets then Some(offsets[id]) else None
  }

  /** The frame with checksum `c` computed and written. */
  function Checksummed(p: Protocol, l: Layout, s: Frame, c: Checksum): (r: Option<Frame>) {
    if c.fieldId >= |l.fields| || c.fieldId !in s.starts || s.starts[c.fieldId] > |s.bytes| then None
    else
      match AnchorAt(c.from, s)
      case None => None
      case Some(from) =>
        match AnchorAt(c.to, s)
        case None => None
        case Some(to) =>
          if from > to || to > |s.bytes| then None
          else
            var value := ScalarBytes(l.fields[c.fieldId], ChecksumValue(p, c.algorithm, s.bytes[from..to]));
            Some(s.(bytes := Codec.Patch(s.bytes, s.starts[c.fieldId], value)))
  }

  /** The frame after the first `n` checksums. */
  function ChecksummedUpTo(p: Protocol, l: Layout, s: Frame, n: nat): (r: Option<Frame>)
    requires n <= |l.checksums|
  {
    if n == 0 then Some(s)
    else
      match ChecksummedUpTo(p, l, s, n - 1)
      case None => None
      case Some(t) => Checksummed(p, l, t, l.checksums[n - 1])
  }

  /** The finished frame. */
  function Finished(p: Protocol, l: Layout, s: Frame): (r: Option<Frame>) {
    match AdvanceTo(l, s, |l.fields|)
    case None => None
    case Some(t) => ChecksummedUpTo(p, l, t, |l.checksums|)
  }
}
