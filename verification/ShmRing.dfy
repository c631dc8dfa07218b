/** One direction of the shared-memory ring: a writer and a reader that share head, tail, slot lengths,
    payload memory and two eventfds. Every load, store, copied byte and eventfd call is a step of its
    own, and the two sides interleave freely. */
module ShmRing {
  import opened Prelude
  import opened Bytes
  import opened Metadata

  datatype Config = Config(slotCount: nat, slotSize: nat)

  /** What creation of a ring accepts. */
  predicate Usable(c: Config) {
    c.slotCount >= 2 && c.slotSize > 0
  }

  /** An eventfd refuses to count further than this; the write that would is dropped. */
  const EVENTFD_MAX: nat := 0xFFFF_FFFF_FFFF_FFFE

  /** Where the writer stands in a write or a wait. A head loaded earlier is kept with the number of
      frames that had been consumed when it was loaded. */
  datatype WriterPc =
    | WriterIdle
    | WriteLoadHead(source: seq<byte>)
    | WriteLoadTail(source: seq<byte>, seenHead: nat, seenCount: nat)
    | WriteReloadTail(source: seq<byte>)
    | WriteCopy(source: seq<byte>, slot: nat, copied: nat)
    | WriteStoreLength(source: seq<byte>, slot: nat)
    | WriteStoreTail(source: seq<byte>, slot: nat)
    | WriteNotify
    | SpaceLoadHead
    | SpaceLoadTail(seenHead: nat, seenCount: nat)
    | PollWritable

  /** Where the reader stands in a read, a wait, an acquire or a release. */
  datatype ReaderPc =
    | ReaderIdle
    | ReadLoadHead(capacity: nat)
    | ReadLoadTail(capacity: nat, seenHead: nat)
    | ReadClaim(capacity: nat)
    | ReadLoadLength(capacity: nat)
    | ReadCopy(length: nat, wanted: nat, got: seq<byte>)
    | ReadStoreHead
    | ReadNotify
    | DrainLoadHead
    | DrainLoadTail(seenHead: nat)
    | Drain
    | DataLoadHead
    | DataLoadTail(seenHead: nat)
    | PollReadable
    | AcquireLoadHead
    | AcquireLoadTail(seenHead: nat)
    | AcquireReloadHead
    | AcquireLoadLength(slot: nat)
    | ReleaseLoadHead(token: nat)
    | ReleaseStoreHead(slot: nat)

  /** The shared memory, the eventfds, the reader's own fields, and what has been written, handed over
      in full, and handed over of the frame being read. */
  datatype State = State(
    head: nat,
    tail: nat,
    lengths: seq<nat>,
    payload: seq<byte>,
    readable: nat,
    writable: nat,
    writer: WriterPc,
    reader: ReaderPc,
    readSlot: nat,
    readOffset: nat,
    readActive: bool,
    leased: bool,
    leaseLength: nat,
    written: seq<seq<byte>>,
    consumed: seq<seq<byte>>,
    partial: seq<byte>)

  function Initial(c: Config): State {
    State(0, 0, seq(c.slotCount, _ => 0), Repeat(0, c.slotCount * c.slotSize), 0, 0, WriterIdle, ReaderIdle,
          0, 0, false, false, 0, [], [], [])
  }

  function Notified(counter: nat): nat {
    if counter < EVENTFD_MAX then counter + 1 else counter
  }

  // ----- The writer -----

  /** What the application asks of the writing endpoint, or that the writer takes its next step. */
  datatype WriterAction = Write(source: seq<byte>) | WaitWritable | WriterTimeout | WriterNext

  /** The state after a writer action; none when the action is not possible. */
  function StepWriter(c: Config, s: State, a: WriterAction): (r: Option<State>)
    requires Usable(c)
  {
    match a
    case Write(source) => if s.writer.WriterIdle? then Some(s.(writer := WriteLoadHead(source))) else None
    case WaitWritable => if s.writer.WriterIdle? then Some(s.(writer := SpaceLoadHead)) else None
    case WriterTimeout => if s.writer.PollWritable? then Some(s.(writer := WriterIdle)) else None
    case WriterNext =>
      match s.writer
      case WriterIdle => None
      case WriteLoadHead(source) => Some(s.(writer := WriteLoadTail(source, s.head, |s.consumed|)))
      case WriteLoadTail(source, seenHead, _) =>
        Some(s.(writer :=
          if (s.tail + 1) % c.slotCount == seenHead || |source| > c.slotSize then WriterIdle
          else WriteReloadTail(source)))
      case WriteReloadTail(source) => Some(s.(writer := WriteCopy(source, s.tail, 0)))
      case WriteCopy(source, slot, copied) =>
        if copied >= |source| then Some(s.(writer := WriteStoreLength(source, slot)))
        else if slot * c.slotSize + copied >= |s.payload| then None
        else Some(s.(payload := s.payload[slot * c.slotSize + copied := source[copied]],
                     writer := WriteCopy(source, slot, copied + 1)))
      case WriteStoreLength(source, slot) =>
        if slot >= |s.lengths| then None
        else Some(s.(lengths := s.lengths[slot := |source|], writer := WriteStoreTail(source, slot)))
      case WriteStoreTail(source, slot) =>
        Some(s.(tail := (slot + 1) % c.slotCount, written := s.written + [source], writer := WriteNotify))
      case WriteNotify => Some(s.(readable := Notified(s.readable), writer := WriterIdle))
      case SpaceLoadHead => Some(s.(writer := SpaceLoadTail(s.head, |s.consumed|)))
      case SpaceLoadTail(seenHead, _) =>
        Some(s.(writer := if (s.tail + 1) % c.slotCount == seenHead then PollWritable else WriterIdle))
      case PollWritable => if s.writable > 0 then Some(s.(writer := WriterIdle)) else None
  }

  // ----- The reader -----

  datatype ReaderAction = Read(capacity: nat) | WaitReadable | Acquire | Release(token: nat) | ReaderTimeout | ReaderNext

  /** The bytes of a slot. */
  function SlotBytes(c: Config, s: State, slot: nat, length: nat): (r: seq<byte>)
    requires slot * c.slotSize + length <= |s.payload|
  {
    s.payload[slot * c.slotSize..slot * c.slotSize + length]
  }

  /** The state after a reader action; none when the action is not possible. */
  function StepReader(c: Config, s: State, a: ReaderAction): (r: Option<State>)
    requires Usable(c)
  {
    match a
    case Read(capacity) =>
      if !s.reader.ReaderIdle? || s.leased then None
      else Some(s.(reader := if s.readActive then ReadLoadLength(capacity) else ReadLoadHead(capacity)))
    case WaitReadable => if s.reader.ReaderIdle? then Some(s.(reader := DataLoadHead)) else None
    case Acquire => if s.reader.ReaderIdle? && !s.readActive && !s.leased then Some(s.(reader := AcquireLoadHead)) else None
    case Release(token) => if s.reader.ReaderIdle? && s.leased then Some(s.(reader := ReleaseLoadHead(token))) else None
    case ReaderTimeout => if s.reader.PollReadable? then Some(s.(reader := ReaderIdle)) else None
    case ReaderNext =>
      match s.reader
      case ReaderIdle => None
      case ReadLoadHead(capacity) => Some(s.(reader := ReadLoadTail(capacity, s.head)))
      case ReadLoadTail(capacity, seenHead) =>
        Some(s.(reader := if seenHead == s.tail then ReaderIdle else ReadClaim(capacity)))
      case ReadClaim(capacity) =>
        Some(s.(readSlot := s.head, readOffset := 0, readActive := true, partial := [], reader := ReadLoadLength(capacity)))
      case ReadLoadLength(capacity) =>
        if s.readSlot >= |s.lengths| || s.lengths[s.readSlot] < s.readOffset then None
        else
          var length := s.lengths[s.readSlot];
          var remaining := length - s.readOffset;
          Some(s.(reader := ReadCopy(length, if remaining <= capacity then remaining else capacity, [])))
      case ReadCopy(length, wanted, got) =>
        var from := s.readSlot * c.slotSize + s.readOffset;
        if |got| < wanted then
          if from + |got| >= |s.payload| then None
          else Some(s.(reader := ReadCopy(length, wanted, got + [s.payload[from + |got|]])))
        else
          Some(s.(readOffset := s.readOffset + |got|, partial := s.partial + got,
                  reader := if s.readOffset + |got| == length then ReadStoreHead else ReaderIdle))
      case ReadStoreHead =>
        Some(s.(head := (s.readSlot + 1) % c.slotCount, readActive := false, readOffset := 0,
                consumed := s.consumed + [s.partial], partial := [], reader := ReadNotify))
      case ReadNotify => Some(s.(writable := Notified(s.writable), reader := DrainLoadHead))
      case DrainLoadHead => Some(s.(reader := DrainLoadTail(s.head)))
      case DrainLoadTail(seenHead) => Some(s.(reader := if seenHead == s.tail then Drain else ReaderIdle))
      case Drain => Some(if s.readable > 0 then s.(readable := 0) else s.(reader := ReaderIdle))
      case DataLoadHead => Some(s.(reader := DataLoadTail(s.head)))
      case DataLoadTail(seenHead) => Some(s.(reader := if seenHead == s.tail then PollReadable else ReaderIdle))
      case PollReadable => if s.readable > 0 then Some(s.(reader := ReaderIdle)) else None
      case AcquireLoadHead => Some(s.(reader := AcquireLoadTail(s.head)))
      case AcquireLoadTail(seenHead) => Some(s.(reader := if seenHead == s.tail then ReaderIdle else AcquireReloadHead))
      case AcquireReloadHead => Some(s.(reader := AcquireLoadLength(s.head)))
      case AcquireLoadLength(slot) =>
        if slot >= |s.lengths| then None
        else Some(s.(leased := true, readSlot := slot, leaseLength := s.lengths[slot], reader := ReaderIdle))
      case ReleaseLoadHead(token) => Some(s.(reader := if token == s.head then ReleaseStoreHead(s.head) else ReaderIdle))
      case ReleaseStoreHead(slot) =>
        if slot * c.slotSize + s.leaseLength > |s.payload| then None
        else Some(s.(head := (slot + 1) % c.slotCount, leased := false,
                     consumed := s.consumed + [SlotBytes(c, s, slot, s.leaseLength)], reader := ReadNotify))
  }

  // ----- Runs -----

  datatype Action = ByWriter(w: WriterAction) | ByReader(r: ReaderAction)

  function Step(c: Config, s: State, a: Action): (r: Option<State>)
    requires Usable(c)
  {
    match a
    case ByWriter(w) => StepWriter(c, s, w)
    case ByReader(r) => StepReader(c, s, r)
  }

  /** The state an interleaving leads to; none when some action in it is not possible. */
  function Run(c: Config, actions: seq<Action>): (r: Option<State>)
    requires Usable(c)
  {
    if actions == [] then Some(Initial(c))
    else
      match Run(c, actions[..|actions| - 1])
      case None => None
      case Some(s) => Step(c, s, actions[|actions| - 1])
  }

  // ----- What every step keeps -----

  function InFlight(s: State): int {
    |s.written| - |s.consumed|
  }

  /** Frame `k` lies complete in its slot. */
  ghost predicate InSlot(c: Config, s: State, k: nat)
    requires Usable(c) && k < |s.written|
  {
    var slot := k % c.slotCount;
    && slot < |s.lengths| && s.lengths[slot] == |s.written[k]|
    && |s.written[k]| <= c.slotSize
    && slot * c.slotSize + |s.written[k]| <= |s.payload|
    && SlotBytes(c, s, slot, |s.written[k]|) == s.written[k]
  }

  ghost predicate SlotsHold(c: Config, s: State)
    requires Usable(c)
  {
    forall k | |s.consumed| <= k < |s.written| :: InSlot(c, s, k)
  }

  /** Indices are the counts modulo the slot count, at most all but one slot are in use, and what was
      handed over is a prefix of what was written. */
  ghost predicate Counts(c: Config, s: State)
    requires Usable(c)
  {
    && |s.lengths| == c.slotCount && |s.payload| == c.slotCount * c.slotSize
    && s.consumed <= s.written
    && InFlight(s) <= c.slotCount - 1
    && s.head == |s.consumed| % c.slotCount
    && s.tail == |s.written| % c.slotCount
  }

  /** The writer's view of the ring is old at worst. */
  ghost predicate SawHead(c: Config, s: State, seenHead: nat, seenCount: nat)
    requires Usable(c)
  {
    && seenCount <= |s.consumed| && |s.written| - seenCount <= c.slotCount - 1
    && seenHead == seenCount % c.slotCount
  }

  ghost predicate Room(c: Config, s: State, source: seq<byte>) {
    InFlight(s) <= c.slotCount - 2 && |source| <= c.slotSize
  }

  ghost predicate WriterInv(c: Config, s: State)
    requires Usable(c) && Counts(c, s)
  {
    match s.writer
    case WriterIdle => true
    case WriteLoadHead(_) => true
    case WriteLoadTail(_, seenHead, seenCount) => SawHead(c, s, seenHead, seenCount)
    case WriteReloadTail(source) => Room(c, s, source)
    case WriteCopy(source, slot, copied) =>
      && Room(c, s, source) && slot == s.tail && copied <= |source|
      && SlotFits(c, s, slot, copied) && SlotBytes(c, s, slot, copied) == source[..copied]
    case WriteStoreLength(source, slot) =>
      && Room(c, s, source) && slot == s.tail
      && SlotFits(c, s, slot, |source|) && SlotBytes(c, s, slot, |source|) == source
    case WriteStoreTail(source, slot) =>
      && Room(c, s, source) && slot == s.tail && s.lengths[slot] == |source|
      && SlotFits(c, s, slot, |source|) && SlotBytes(c, s, slot, |source|) == source
    case WriteNotify => true
    case SpaceLoadHead => true
    case SpaceLoadTail(seenHead, seenCount) => SawHead(c, s, seenHead, seenCount)
    case PollWritable => true
  }

  predicate SlotFits(c: Config, s: State, slot: nat, length: nat) {
    slot * c.slotSize + length <= |s.payload|
  }

  /** The frame at the head of the ring exists and lies in the slot the reader works on. */
  ghost predicate OnHead(c: Config, s: State, slot: nat)
    requires Usable(c) && Counts(c, s)
  {
    InFlight(s) > 0 && slot == s.head
  }

  /** The frame being read: what was handed over so far is its beginning. */
  ghost predicate Reading(c: Config, s: State)
    requires Usable(c) && Counts(c, s)
  {
    && OnHead(c, s, s.readSlot)
    && s.readOffset <= |s.written[|s.consumed|]|
    && s.partial == s.written[|s.consumed|][..s.readOffset]
  }

  /** A leased frame can be seen whole, unchanged, in the leased slot. */
  ghost predicate Leasing(c: Config, s: State)
    requires Usable(c) && Counts(c, s)
  {
    OnHead(c, s, s.readSlot) && s.leaseLength == |s.written[|s.consumed|]|
  }

  ghost predicate ReaderInv(c: Config, s: State)
    requires Usable(c) && Counts(c, s)
  {
    && !(s.readActive && s.leased)
    && (s.readActive ==> Reading(c, s))
    && (s.leased ==> Leasing(c, s))
    && ReaderAt(c, s)
  }

  ghost predicate ReaderAt(c: Config, s: State)
    requires Usable(c) && Counts(c, s)
  {
    match s.reader
    case ReaderIdle => true
    case ReadLoadHead(_) => !s.readActive && !s.leased
    case ReadLoadTail(_, seenHead) => !s.readActive && !s.leased && seenHead == s.head
    case ReadClaim(_) => !s.readActive && !s.leased && InFlight(s) > 0
    case ReadLoadLength(_) => s.readActive
    case ReadCopy(length, wanted, got) =>
      && s.readActive && InFlight(s) > 0 && length == |s.written[|s.consumed|]|
      && |got| <= wanted <= length - s.readOffset
      && got == s.written[|s.consumed|][s.readOffset..s.readOffset + |got|]
    case ReadStoreHead => s.readActive && InFlight(s) > 0 && s.partial == s.written[|s.consumed|]
    case ReadNotify => !s.readActive && !s.leased
    case DrainLoadHead => !s.readActive && !s.leased
    case DrainLoadTail(_) => !s.readActive && !s.leased
    case Drain => !s.readActive && !s.leased
    case DataLoadHead => true
    case DataLoadTail(seenHead) => seenHead == s.head
    case PollReadable => true
    case AcquireLoadHead => !s.readActive && !s.leased
    case AcquireLoadTail(seenHead) => !s.readActive && !s.leased && seenHead == s.head
    case AcquireReloadHead => !s.readActive && !s.leased && InFlight(s) > 0
    case AcquireLoadLength(slot) => !s.readActive && !s.leased && OnHead(c, s, slot)
    case ReleaseLoadHead(_) => s.leased
    case ReleaseStoreHead(slot) => s.leased && slot == s.head
  }

  /** A side that polls while it could go on has its eventfd signalled, or a notification is due. */
  ghost predicate WakeupInv(c: Config, s: State) {
    && (s.reader.PollReadable? && InFlight(s) > 0 ==> s.readable > 0 || s.writer.WriteNotify?)
    && (|s.consumed| > 0 ==> s.writable > 0 || s.reader.ReadNotify?)
    && (s.writer.PollWritable? ==> |s.consumed| > 0 || InFlight(s) == c.slotCount - 1)
  }

  ghost predicate Inv(c: Config, s: State)
    requires Usable(c)
  {
    Counts(c, s) && SlotsHold(c, s) && WriterInv(c, s) && ReaderInv(c, s) && WakeupInv(c, s)
  }

  // ----- Modular arithmetic -----

  /** Counts less than a lap apart share a slot only if they are equal. */
  lemma SameSlot(a: nat, b: nat, n: nat)
    requires n > 0 && a <= b < a + n && a % n == b % n
    ensures a == b
  {
    assert a == a / n * n + a % n && b == b / n * n + b % n;
    OneMoreMultiple(a / n + 1, n);
    if a / n < b / n {
      MulMonotone(a / n + 1, b / n, n);
    } else {
      MulMonotone(b / n, a / n, n);
    }
  }

  lemma NextSlot(a: nat, n: nat)
    requires n > 0
    ensures (a % n + 1) % n == (a + 1) % n
  {
    var q := a / n;
    assert a + 1 == q * n + (a % n + 1);
    ModAdd(q, a % n + 1, n);
  }

  /** Quotient and remainder are unique. */
  lemma SameRemainder(q: nat, r: nat, k: nat, t: nat, n: nat)
    requires r < n && t < n && q * n + r == k * n + t
    ensures r == t
  {
    OneMoreMultiple(q + 1, n);
    OneMoreMultiple(k + 1, n);
    if q < k {
      MulMonotone(q + 1, k, n);
    } else if k < q {
      MulMonotone(k + 1, q, n);
    }
  }

  lemma ModAdd(q: nat, r: nat, n: nat)
    requires n > 0
    ensures (q * n + r) % n == r % n
  {
    var a := q * n + r;
    assert a == a / n * n + a % n;
    assert r == r / n * n + r % n;
    assert (q + r / n) * n == q * n + r / n * n;
    SameRemainder(a / n, a % n, q + r / n, r % n, n);
  }

  /** Different slots share no memory. */
  lemma SlotsApart(i: nat, j: nat, size: nat)
    requires i != j
    ensures (i + 1) * size <= j * size || (j + 1) * size <= i * size
  {
    if i < j {
      MulMonotone(i + 1, j, size);
    } else {
      MulMonotone(j + 1, i, size);
    }
  }

  // ----- What a side keeps by leaving it alone -----

  lemma SlotsStay(c: Config, s: State, s': State)
    requires Usable(c) && SlotsHold(c, s)
    requires s'.lengths == s.lengths && s'.payload == s.payload && s'.written == s.written && |s.consumed| <= |s'.consumed|
    ensures SlotsHold(c, s')
  {
    forall k | |s'.consumed| <= k < |s'.written|
      ensures InSlot(c, s', k)
    {
      assert InSlot(c, s, k);
    }
  }

  /** The reader's fields and the head are the reader's alone; what was written only grows. */
  lemma ReaderStays(c: Config, s: State, s': State)
    requires Usable(c) && Counts(c, s) && Counts(c, s') && ReaderInv(c, s)
    requires s'.reader == s.reader && s'.readSlot == s.readSlot && s'.readOffset == s.readOffset && s'.partial == s.partial
    requires s'.readActive == s.readActive && s'.leased == s.leased && s'.leaseLength == s.leaseLength
    requires s'.head == s.head && s'.consumed == s.consumed && s.written <= s'.written
    ensures ReaderInv(c, s')
  {
  }

  /** The writer's position and the tail are the writer's alone; what was consumed only grows. */
  lemma WriterStays(c: Config, s: State, s': State)
    requires Usable(c) && Counts(c, s) && Counts(c, s') && WriterInv(c, s)
    requires s'.writer == s.writer && s'.tail == s.tail && s'.lengths == s.lengths && s'.payload == s.payload
    requires s'.written == s.written && s.consumed <= s'.consumed
    ensures WriterInv(c, s')
  {
    match s.writer
    case WriteCopy(source, slot, copied) => assert SlotBytes(c, s', slot, copied) == SlotBytes(c, s, slot, copied);
    case WriteStoreLength(source, slot) => assert SlotBytes(c, s', slot, |source|) == SlotBytes(c, s, slot, |source|);
    case WriteStoreTail(source, slot) => assert SlotBytes(c, s', slot, |source|) == SlotBytes(c, s, slot, |source|);
    case _ =>
  }

  // ----- Steps of the writer -----

  lemma InitialHolds(c: Config)
    requires Usable(c)
    ensures Inv(c, Initial(c))
  {
  }

  /** The free slot shares no memory with a frame in flight. */
  lemma FreeSlot(c: Config, s: State, k: nat)
    requires Usable(c) && Counts(c, s) && InFlight(s) <= c.slotCount - 2 && |s.consumed| <= k < |s.written|
    ensures k % c.slotCount != s.tail
    ensures var slot := k % c.slotCount;
            (slot + 1) * c.slotSize <= s.tail * c.slotSize || (s.tail + 1) * c.slotSize <= slot * c.slotSize
    ensures (k % c.slotCount) * c.slotSize + c.slotSize == (k % c.slotCount + 1) * c.slotSize
  {
    if k % c.slotCount == s.tail {
      SameSlot(k, |s.written|, c.slotCount);
    }
    SlotsApart(k % c.slotCount, s.tail, c.slotSize);
    OneMoreMultiple(k % c.slotCount + 1, c.slotSize);
  }

  /** Every slot lies inside the payload memory. */
  lemma SlotInside(c: Config, s: State, slot: nat, length: nat)
    requires Usable(c) && Counts(c, s) && slot < c.slotCount && length <= c.slotSize
    ensures SlotFits(c, s, slot, length)
    ensures slot * c.slotSize + c.slotSize == (slot + 1) * c.slotSize
  {
    MulMonotone(slot + 1, c.slotCount, c.slotSize);
    OneMoreMultiple(slot + 1, c.slotSize);
  }

  /** Writing into the free slot leaves the frames in flight alone. */
  lemma CopyKeepsSlots(c: Config, s: State, s': State, at: nat, b: byte)
    requires Usable(c) && Counts(c, s) && SlotsHold(c, s) && InFlight(s) <= c.slotCount - 2
    requires s.tail * c.slotSize <= at < (s.tail + 1) * c.slotSize && at < |s.payload|
    requires s'.payload == s.payload[at := b] && s'.lengths == s.lengths && s'.written == s.written && s'.consumed == s.consumed
    ensures SlotsHold(c, s')
  {
    forall k | |s'.consumed| <= k < |s'.written|
      ensures InSlot(c, s', k)
    {
      assert InSlot(c, s, k);
      FreeSlot(c, s, k);
      var slot := k % c.slotCount;
      assert SlotBytes(c, s', slot, |s.written[k]|) == SlotBytes(c, s, slot, |s.written[k]|);
    }
  }

  lemma LengthKeepsSlots(c: Config, s: State, s': State, n: nat)
    requires Usable(c) && Counts(c, s) && SlotsHold(c, s) && InFlight(s) <= c.slotCount - 2
    requires s'.lengths == s.lengths[s.tail := n] && s'.payload == s.payload && s'.written == s.written && s'.consumed == s.consumed
    ensures SlotsHold(c, s')
  {
    forall k | |s'.consumed| <= k < |s'.written|
      ensures InSlot(c, s', k)
    {
      assert InSlot(c, s, k);
      FreeSlot(c, s, k);
    }
  }

  lemma CopiedOn(memory: seq<byte>, x: nat, source: seq<byte>, n: nat)
    requires n < |source| && x + n < |memory| && memory[x..x + n] == source[..n]
    ensures memory[x + n := source[n]][x..x + n + 1] == source[..n + 1]
  {
    var after := memory[x + n := source[n]];
    assert after[x..x + n] == memory[x..x + n];
    assert after[x..x + n + 1] == after[x..x + n] + [source[n]];
    assert source[..n + 1] == source[..n] + [source[n]];
  }

  lemma CopyKeeps(c: Config, s: State, s': State)
    requires Usable(c) && Inv(c, s) && s.writer.WriteCopy? && s.writer.copied < |s.writer.source|
    requires StepWriter(c, s, WriterNext) == Some(s')
    ensures Inv(c, s')
  {
    var source, slot, copied := s.writer.source, s.writer.slot, s.writer.copied;
    var x := slot * c.slotSize;
    SlotInside(c, s, slot, |source|);
    CopiedOn(s.payload, x, source, copied);
    CopyKeepsSlots(c, s, s', x + copied, source[copied]);
  }

  lemma StoreLengthKeeps(c: Config, s: State, s': State)
    requires Usable(c) && Inv(c, s) && s.writer.WriteStoreLength? && StepWriter(c, s, WriterNext) == Some(s')
    ensures Inv(c, s')
  {
    LengthKeepsSlots(c, s, s', |s.writer.source|);
  }

  /** Publishing the tail adds the frame to the ring. */
  lemma StoreTailKeeps(c: Config, s: State, s': State)
    requires Usable(c) && Inv(c, s) && s.writer.WriteStoreTail? && StepWriter(c, s, WriterNext) == Some(s')
    ensures Inv(c, s')
  {
    NextSlot(|s.written|, c.slotCount);
    assert s.consumed <= s'.written;
    forall k | |s'.consumed| <= k < |s'.written|
      ensures InSlot(c, s', k)
    {
      if k < |s.written| {
        assert InSlot(c, s, k);
      }
    }
  }

  /** A full ring as the writer saw it is full, or has been read from since. */
  lemma NoSpaceSeen(c: Config, s: State, seenHead: nat, seenCount: nat)
    requires Usable(c) && Counts(c, s) && SawHead(c, s, seenHead, seenCount)
    ensures (s.tail + 1) % c.slotCount == seenHead <==> |s.written| - seenCount == c.slotCount - 1
  {
    NextSlot(|s.written|, c.slotCount);
    if (s.tail + 1) % c.slotCount == seenHead {
      if |s.written| - seenCount < c.slotCount - 1 {
        SameSlot(seenCount, |s.written| + 1, c.slotCount);
      }
    }
    if |s.written| - seenCount == c.slotCount - 1 {
      assert |s.written| + 1 == 1 * c.slotCount + seenCount;
      ModAdd(1, seenCount, c.slotCount);
    }
  }

  /** A step that only moves the writer on. */
  lemma MoveKeeps(c: Config, s: State, s': State)
    requires Usable(c) && Inv(c, s) && s' == s.(writer := s'.writer)
    requires WriterInv(c, s') && WakeupInv(c, s')
    ensures Inv(c, s')
  {
    SlotsStay(c, s, s');
    ReaderStays(c, s, s');
  }

  lemma LoadTailKeeps(c: Config, s: State, s': State)
    requires Usable(c) && Inv(c, s) && (s.writer.WriteLoadTail? || s.writer.SpaceLoadTail?)
    requires StepWriter(c, s, WriterNext) == Some(s')
    ensures Inv(c, s')
  {
    NoSpaceSeen(c, s, s.writer.seenHead, s.writer.seenCount);
    MoveKeeps(c, s, s');
  }

  lemma ReloadKeeps(c: Config, s: State, s': State)
    requires Usable(c) && Inv(c, s) && s.writer.WriteReloadTail? && StepWriter(c, s, WriterNext) == Some(s')
    ensures Inv(c, s')
  {
    SlotInside(c, s, s.tail, 0);
    assert SlotBytes(c, s', s.tail, 0) == s.writer.source[..0];
    MoveKeeps(c, s, s');
  }

  lemma CopyEndKeeps(c: Config, s: State, s': State)
    requires Usable(c) && Inv(c, s) && s.writer.WriteCopy? && s.writer.copied == |s.writer.source|
    requires StepWriter(c, s, WriterNext) == Some(s')
    ensures Inv(c, s')
  {
    assert s.writer.source[..s.writer.copied] == s.writer.source;
    MoveKeeps(c, s, s');
  }

  /** Starting an operation, loading the head, giving up and being woken. */
  lemma IdleWriterKeeps(c: Config, s: State, a: WriterAction, s': State)
    requires Usable(c) && Inv(c, s) && StepWriter(c, s, a) == Some(s')
    requires a.WriterNext? ==> s.writer.WriteLoadHead? || s.writer.SpaceLoadHead? || s.writer.PollWritable?
    ensures Inv(c, s')
  {
    MoveKeeps(c, s, s');
  }

  lemma NotifyKeeps(c: Config, s: State, s': State)
    requires Usable(c) && Inv(c, s) && s.writer.WriteNotify? && StepWriter(c, s, WriterNext) == Some(s')
    ensures Inv(c, s')
  {
    SlotsStay(c, s, s');
    ReaderStays(c, s, s');
  }

  lemma WriterKeeps(c: Config, s: State, a: WriterAction, s': State)
    requires Usable(c) && Inv(c, s) && StepWriter(c, s, a) == Some(s')
    ensures Inv(c, s')
  {
    if !a.WriterNext? {
      IdleWriterKeeps(c, s, a, s');
    } else if s.writer.WriteCopy? {
      if s.writer.copied < |s.writer.source| {
        CopyKeeps(c, s, s');
      } else {
        CopyEndKeeps(c, s, s');
      }
    } else if s.writer.WriteStoreLength? {
      StoreLengthKeeps(c, s, s');
    } else if s.writer.WriteStoreTail? {
      StoreTailKeeps(c, s, s');
    } else if s.writer.WriteNotify? {
      NotifyKeeps(c, s, s');
    } else if s.writer.WriteLoadTail? || s.writer.SpaceLoadTail? {
      LoadTailKeeps(c, s, s');
    } else if s.writer.WriteReloadTail? {
      ReloadKeeps(c, s, s');
    } else {
      IdleWriterKeeps(c, s, a, s');
    }
  }

  // ----- Steps of the reader -----

  /** Head and tail differ exactly when frames are in flight. */
  lemma DataSeen(c: Config, s: State)
    requires Usable(c) && Counts(c, s)
    ensures s.head != s.tail <==> InFlight(s) > 0
  {
    if s.head == s.tail {
      SameSlot(|s.consumed|, |s.written|, c.slotCount);
    }
  }

  /** A step that touches only the reader's own fields and the readable eventfd. */
  lemma ReaderMoveKeeps(c: Config, s: State, s': State)
    requires Usable(c) && Inv(c, s) && Counts(c, s')
    requires s'.writer == s.writer && s'.tail == s.tail && s'.lengths == s.lengths && s'.payload == s.payload
    requires s'.written == s.written && s'.consumed == s.consumed
    requires ReaderInv(c, s') && WakeupInv(c, s')
    ensures Inv(c, s')
  {
    SlotsStay(c, s, s');
    WriterStays(c, s, s');
  }

  lemma ReaderLoadTailKeeps(c: Config, s: State, s': State)
    requires Usable(c) && Inv(c, s) && (s.reader.ReadLoadTail? || s.reader.AcquireLoadTail? || s.reader.DataLoadTail? || s.reader.DrainLoadTail?)
    requires StepReader(c, s, ReaderNext) == Some(s')
    ensures Inv(c, s')
  {
    DataSeen(c, s);
    ReaderMoveKeeps(c, s, s');
  }

  lemma ClaimKeeps(c: Config, s: State, s': State)
    requires Usable(c) && Inv(c, s) && s.reader.ReadClaim? && StepReader(c, s, ReaderNext) == Some(s')
    ensures Inv(c, s')
  {
    assert s'.partial == s.written[|s.consumed|][..0];
    ReaderMoveKeeps(c, s, s');
  }

  lemma LoadLengthKeeps(c: Config, s: State, s': State)
    requires Usable(c) && Inv(c, s) && (s.reader.ReadLoadLength? || s.reader.AcquireLoadLength?)
    requires StepReader(c, s, ReaderNext) == Some(s')
    ensures Inv(c, s')
  {
    assert InSlot(c, s, |s.consumed|);
    ReaderMoveKeeps(c, s, s');
  }

  /** A byte read from the head slot is the next byte of the frame. */
  lemma HeadByte(c: Config, s: State, at: nat)
    requires Usable(c) && Inv(c, s) && InFlight(s) > 0 && at < |s.written[|s.consumed|]|
    ensures s.head * c.slotSize + at < |s.payload|
    ensures s.payload[s.head * c.slotSize + at] == s.written[|s.consumed|][at]
  {
    assert InSlot(c, s, |s.consumed|);
    assert SlotBytes(c, s, s.head, |s.written[|s.consumed|]|)[at] == s.written[|s.consumed|][at];
  }

  lemma ReadByteKeeps(c: Config, s: State, s': State)
    requires Usable(c) && Inv(c, s) && s.reader.ReadCopy? && |s.reader.got| < s.reader.wanted
    requires StepReader(c, s, ReaderNext) == Some(s')
    ensures Inv(c, s')
  {
    var at := s.readOffset + |s.reader.got|;
    HeadByte(c, s, at);
    var frame := s.written[|s.consumed|];
    assert frame[s.readOffset..at + 1] == frame[s.readOffset..at] + [frame[at]];
    ReaderMoveKeeps(c, s, s');
  }

  lemma ReadEndKeeps(c: Config, s: State, s': State)
    requires Usable(c) && Inv(c, s) && s.reader.ReadCopy? && |s.reader.got| >= s.reader.wanted
    requires StepReader(c, s, ReaderNext) == Some(s')
    ensures Inv(c, s')
  {
    var frame := s.written[|s.consumed|];
    var end := s.readOffset + |s.reader.got|;
    assert frame[..end] == frame[..s.readOffset] + frame[s.readOffset..end];
    if end == |frame| {
      assert frame[..end] == frame;
    }
    ReaderMoveKeeps(c, s, s');
  }

  /** Moving the head on hands over the next frame. */
  lemma StoreHeadKeeps(c: Config, s: State, s': State, frame: seq<byte>)
    requires Usable(c) && Inv(c, s) && InFlight(s) > 0 && frame == s.written[|s.consumed|]
    requires !s'.readActive && !s'.leased && s'.reader.ReadNotify?
    requires s'.head == (s.head + 1) % c.slotCount && s'.consumed == s.consumed + [frame]
    requires s'.writer == s.writer && s'.tail == s.tail && s'.lengths == s.lengths && s'.payload == s.payload
    requires s'.written == s.written && s'.readable == s.readable && s'.writable == s.writable
    ensures Inv(c, s')
  {
    NextSlot(|s.consumed|, c.slotCount);
    assert s.written[..|s.consumed| + 1] == s.written[..|s.consumed|] + [frame];
    assert s'.consumed <= s.written;
    SlotsStay(c, s, s');
    WriterStays(c, s, s');
  }

  lemma ReleaseKeeps(c: Config, s: State, s': State)
    requires Usable(c) && Inv(c, s) && s.reader.ReleaseStoreHead? && StepReader(c, s, ReaderNext) == Some(s')
    ensures Inv(c, s')
  {
    assert InSlot(c, s, |s.consumed|);
    StoreHeadKeeps(c, s, s', SlotBytes(c, s, s.head, s.leaseLength));
  }

  /** Every other step moves the reader on, or turns an eventfd up or down. */
  predicate ReaderQuiet(pc: ReaderPc) {
    || pc.ReadLoadHead? || pc.ReadNotify? || pc.DrainLoadHead? || pc.Drain? || pc.DataLoadHead? || pc.PollReadable?
    || pc.AcquireLoadHead? || pc.AcquireReloadHead? || pc.ReleaseLoadHead?
  }

  lemma QuietReaderKeeps(c: Config, s: State, a: ReaderAction, s': State)
    requires Usable(c) && Inv(c, s) && StepReader(c, s, a) == Some(s')
    requires a.ReaderNext? ==> ReaderQuiet(s.reader)
    ensures Inv(c, s')
  {
    ReaderMoveKeeps(c, s, s');
  }

  lemma ReaderKeeps(c: Config, s: State, a: ReaderAction, s': State)
    requires Usable(c) && Inv(c, s) && StepReader(c, s, a) == Some(s')
    ensures Inv(c, s')
  {
    if !a.ReaderNext? || ReaderQuiet(s.reader) {
      QuietReaderKeeps(c, s, a, s');
    } else if s.reader.ReadClaim? {
      ClaimKeeps(c, s, s');
    } else if s.reader.ReadLoadLength? || s.reader.AcquireLoadLength? {
      LoadLengthKeeps(c, s, s');
    } else if s.reader.ReadCopy? {
      if |s.reader.got| < s.reader.wanted {
        ReadByteKeeps(c, s, s');
      } else {
        ReadEndKeeps(c, s, s');
      }
    } else if s.reader.ReadStoreHead? {
      StoreHeadKeeps(c, s, s', s.partial);
    } else if s.reader.ReleaseStoreHead? {
      ReleaseKeeps(c, s, s');
    } else {
      ReaderLoadTailKeeps(c, s, s');
    }
  }

  // ----- Every interleaving -----

  /** Every state any interleaving reaches meets the invariant. */
  lemma {:induction false} RunKeeps(c: Config, actions: seq<Action>, s: State)
    requires Usable(c) && Run(c, actions) == Some(s)
    ensures Inv(c, s)
    decreases |actions|
  {
    if actions == [] {
      InitialHolds(c);
    } else {
      var before := Run(c, actions[..|actions| - 1]).value;
      RunKeeps(c, actions[..|actions| - 1], before);
      match actions[|actions| - 1]
      case ByWriter(a) => WriterKeeps(c, before, a, s);
      case ByReader(a) => ReaderKeeps(c, before, a, s);
    }
  }

  /** Frames are handed over in order, exactly once, byte for byte, and the ring never holds more than
      all but one of its slots. */
  lemma DeliveredInOrder(c: Config, actions: seq<Action>, s: State)
    requires Usable(c) && Run(c, actions) == Some(s)
    ensures s.consumed <= s.written
    ensures 0 <= |s.written| - |s.consumed| <= c.slotCount - 1
    ensures forall k | |s.consumed| <= k < |s.written| :: InSlot(c, s, k)
    ensures s.readActive ==> |s.consumed| < |s.written| && s.partial <= s.written[|s.consumed|]
  {
    RunKeeps(c, actions, s);
  }

  /** While a frame is leased, its slot shows exactly the next written frame, whatever the writer does. */
  lemma LeaseIsStable(c: Config, actions: seq<Action>, s: State)
    requires Usable(c) && Run(c, actions) == Some(s) && s.leased
    ensures |s.consumed| < |s.written|
    ensures SlotFits(c, s, s.readSlot, s.leaseLength)
    ensures SlotBytes(c, s, s.readSlot, s.leaseLength) == s.written[|s.consumed|]
  {
    RunKeeps(c, actions, s);
    assert InSlot(c, s, |s.consumed|);
  }

  /** While a frame is being read in parts, its slot keeps it whole. */
  lemma PartialReadIsStable(c: Config, actions: seq<Action>, s: State)
    requires Usable(c) && Run(c, actions) == Some(s) && s.readActive
    ensures |s.consumed| < |s.written|
    ensures SlotFits(c, s, s.readSlot, |s.written[|s.consumed|]|)
    ensures SlotBytes(c, s, s.readSlot, |s.written[|s.consumed|]|) == s.written[|s.consumed|]
  {
    RunKeeps(c, actions, s);
    assert InSlot(c, s, |s.consumed|);
  }

  /** No wakeup is lost: a reader polling while a frame is there, or a writer polling while a slot is
      free, can be woken now or as soon as the other side makes the notification it has still to make. */
  lemma NoLostWakeup(c: Config, actions: seq<Action>, s: State)
    requires Usable(c) && Run(c, actions) == Some(s)
    ensures s.reader.PollReadable? && InFlight(s) > 0 ==>
              StepReader(c, s, ReaderNext).Some? || s.writer.WriteNotify?
    ensures s.writer.PollWritable? && InFlight(s) < c.slotCount - 1 ==>
              StepWriter(c, s, WriterNext).Some? || s.reader.ReadNotify?
  {
    RunKeeps(c, actions, s);
  }

  /** No side ever reaches outside the shared memory or gets stuck: it can take its next step unless it
      is idle or polling an eventfd that is not signalled. */
  lemma NeverStuck(c: Config, actions: seq<Action>, s: State)
    requires Usable(c) && Run(c, actions) == Some(s)
    ensures StepWriter(c, s, WriterNext).None? <==> s.writer.WriterIdle? || (s.writer.PollWritable? && s.writable == 0)
    ensures StepReader(c, s, ReaderNext).None? <==> s.reader.ReaderIdle? || (s.reader.PollReadable? && s.readable == 0)
  {
    RunKeeps(c, actions, s);
    WriterNeverStuck(c, s);
    ReaderNeverStuck(c, s);
  }

  lemma WriterNeverStuck(c: Config, s: State)
    requires Usable(c) && Inv(c, s)
    ensures StepWriter(c, s, WriterNext).None? <==> s.writer.WriterIdle? || (s.writer.PollWritable? && s.writable == 0)
  {
    if s.writer.WriteCopy? {
      SlotInside(c, s, s.writer.slot, |s.writer.source|);
    }
  }

  lemma ReaderNeverStuck(c: Config, s: State)
    requires Usable(c) && Inv(c, s)
    ensures StepReader(c, s, ReaderNext).None? <==> s.reader.ReaderIdle? || (s.reader.PollReadable? && s.readable == 0)
  {
    if InFlight(s) > 0 {
      assert InSlot(c, s, |s.consumed|);
    }
  }

  // ----- Why a wait looks at the ring before it polls -----

  ghost predicate Reachable(c: Config, s: State)
    requires Usable(c)
  {
    exists actions :: Run(c, actions) == Some(s)
  }

  lemma Then(c: Config, s: State, a: Action, s': State)
    requires Usable(c) && Reachable(c, s) && Step(c, s, a) == Some(s')
    ensures Reachable(c, s')
  {
    var actions :| Run(c, actions) == Some(s);
    var longer := actions + [a];
    assert longer[..|longer| - 1] == actions;
    assert Run(c, longer) == Some(s');
  }

  lemma ThenWriter(c: Config, s: State, s': State)
    requires Usable(c) && Reachable(c, s) && StepWriter(c, s, WriterNext) == Some(s')
    ensures Reachable(c, s')
  {
    Then(c, s, ByWriter(WriterNext), s');
  }

  lemma ThenReader(c: Config, s: State, s': State)
    requires Usable(c) && Reachable(c, s) && StepReader(c, s, ReaderNext) == Some(s')
    ensures Reachable(c, s')
  {
    Then(c, s, ByReader(ReaderNext), s');
  }

  /** The writer, undisturbed, finds room for an empty frame. */
  lemma FindRoom(c: Config, s: State) returns (s': State)
    requires Usable(c) && Reachable(c, s) && s.writer.WriterIdle? && (s.tail + 1) % c.slotCount != s.head
    ensures Reachable(c, s') && s' == s.(writer := WriteCopy([], s.tail, 0))
  {
    var s1 := s.(writer := WriteLoadHead([]));
    var s2 := s.(writer := WriteLoadTail([], s.head, |s.consumed|));
    var s3 := s.(writer := WriteReloadTail([]));
    s' := s.(writer := WriteCopy([], s.tail, 0));
    Then(c, s, ByWriter(Write([])), s1);
    ThenWriter(c, s1, s2);
    ThenWriter(c, s2, s3);
    ThenWriter(c, s3, s');
  }

  /** The writer, undisturbed, writes an empty frame. */
  lemma WriteEmpty(c: Config, s: State) returns (s': State)
    requires Usable(c) && Reachable(c, s)
    requires s.writer.WriterIdle? && (s.tail + 1) % c.slotCount != s.head && s.tail < |s.lengths|
    ensures Reachable(c, s')
    ensures s' == s.(lengths := s.lengths[s.tail := 0], tail := (s.tail + 1) % c.slotCount, written := s.written + [[]],
                     readable := Notified(s.readable))
  {
    var s1 := FindRoom(c, s);
    var s2 := s1.(writer := WriteStoreLength([], s.tail));
    var s3 := s1.(lengths := s.lengths[s.tail := 0], writer := WriteStoreTail([], s.tail));
    var s4 := s3.(tail := (s.tail + 1) % c.slotCount, written := s.written + [[]], writer := WriteNotify);
    s' := s4.(readable := Notified(s.readable), writer := WriterIdle);
    ThenWriter(c, s1, s2);
    ThenWriter(c, s2, s3);
    ThenWriter(c, s3, s4);
    ThenWriter(c, s4, s');
  }

  /** The reader claims the frame at the head. */
  lemma ClaimFrame(c: Config, s: State) returns (s': State)
    requires Usable(c) && Reachable(c, s)
    requires s.reader.ReaderIdle? && !s.readActive && !s.leased && s.head != s.tail
    ensures Reachable(c, s')
    ensures s' == s.(readSlot := s.head, readOffset := 0, readActive := true, partial := [], reader := ReadLoadLength(0))
  {
    var s1 := s.(reader := ReadLoadHead(0));
    var s2 := s.(reader := ReadLoadTail(0, s.head));
    var s3 := s.(reader := ReadClaim(0));
    s' := s.(readSlot := s.head, readOffset := 0, readActive := true, partial := [], reader := ReadLoadLength(0));
    Then(c, s, ByReader(Read(0)), s1);
    ThenReader(c, s1, s2);
    ThenReader(c, s2, s3);
    ThenReader(c, s3, s');
  }

  /** The reader hands over the empty frame it has claimed. */
  lemma TakeEmpty(c: Config, s: State) returns (s': State)
    requires Usable(c) && Reachable(c, s) && s.reader == ReadLoadLength(0) && s.readActive && s.readOffset == 0 && s.partial == []
    requires s.readSlot < |s.lengths| && s.lengths[s.readSlot] == 0
    ensures Reachable(c, s')
    ensures s' == s.(head := (s.readSlot + 1) % c.slotCount, readActive := false, consumed := s.consumed + [[]],
                     writable := Notified(s.writable), reader := DrainLoadHead)
  {
    var s1 := s.(reader := ReadCopy(0, 0, []));
    var s2 := s.(reader := ReadStoreHead);
    var s3 := s.(head := (s.readSlot + 1) % c.slotCount, readActive := false, consumed := s.consumed + [[]], reader := ReadNotify);
    s' := s3.(writable := Notified(s.writable), reader := DrainLoadHead);
    ThenReader(c, s, s1);
    assert s1.partial + s1.reader.got == s2.partial;
    ThenReader(c, s1, s2);
    ThenReader(c, s2, s3);
    ThenReader(c, s3, s');
  }

  /** The reader finds the ring empty and is about to drain its eventfd. */
  lemma AboutToDrain(c: Config, s: State) returns (s': State)
    requires Usable(c) && Reachable(c, s) && s.reader.DrainLoadHead? && s.head == s.tail
    ensures Reachable(c, s') && s' == s.(reader := Drain)
  {
    var s1 := s.(reader := DrainLoadTail(s.head));
    s' := s.(reader := Drain);
    ThenReader(c, s, s1);
    ThenReader(c, s1, s');
  }

  lemma DrainSignal(c: Config, s: State) returns (s': State)
    requires Usable(c) && Reachable(c, s) && s.reader.Drain? && s.readable > 0
    ensures Reachable(c, s') && s' == s.(readable := 0, reader := ReaderIdle)
  {
    var s1 := s.(readable := 0);
    s' := s.(readable := 0, reader := ReaderIdle);
    ThenReader(c, s, s1);
    ThenReader(c, s1, s');
  }

  lemma NotAlone(n: nat)
    requires n >= 2
    ensures 1 % n == 1 && 2 % n != 1
  {
    if n == 2 {
      assert 2 % n == 0;
    } else {
      assert 2 % n == 2;
    }
  }

  /** A frame written between the reader's look at the ring and its draining of the eventfd stays behind
      with no signal and none due: the eventfd alone does not tell whether there is data, so a wait has
      to look at the ring first. */
  lemma SignalCanBeDrained(c: Config) returns (s: State)
    requires Usable(c)
    ensures Reachable(c, s)
    ensures InFlight(s) == 1 && s.readable == 0 && s.writer.WriterIdle? && s.reader.ReaderIdle?
  {
    s := Initial(c);
    assert Run(c, []) == Some(s);
    NotAlone(c.slotCount);
    s := WriteEmpty(c, s);
    s := ClaimFrame(c, s);
    s := TakeEmpty(c, s);
    s := AboutToDrain(c, s);
    s := WriteEmpty(c, s);
    s := DrainSignal(c, s);
  }
}
