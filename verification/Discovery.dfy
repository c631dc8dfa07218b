/** Drafting a protocol from sample frames: what they have in common becomes constants, a number that
    explains every frame's length becomes a length field. */
module Discovery {
  import opened Prelude
  import opened Bytes
  import opened Metadata
  import opened SchemaLayouts
  import opened Drafts
  import SchemaCompiler
  import BorrowedDecoder

  datatype Options = Options(
    protocolName: string,
    maxPrefix: nat,
    samplesPerMessage: nat,
    maxWidth: nat,
    searchBytes: nat,
    byFirstByte: bool)

  // ----- Measuring the samples -----

  method MinFrameSize(frames: Frames) returns (result: nat)
    ensures frames == [] ==> result == 0
    ensures frames != [] ==> exists f :: f in frames && |f| == result
    ensures forall f | f in frames :: result <= |f|
  {
    result := if frames == [] then 0 else |frames[0]|;
    for k := 0 to |frames|
      invariant frames == [] ==> result == 0
      invariant frames != [] ==> exists f :: f in frames && |f| == result
      invariant forall j | 0 <= j < k :: result <= |frames[j]|
    {
      if |frames[k]| < result {
        result := |frames[k]|;
        assert frames[k] in frames;
      }
    }
  }

  method MaxFrameSize(frames: Frames) returns (result: nat)
    ensures forall f | f in frames :: |f| <= result
    ensures frames != [] ==> exists f :: f in frames && |f| == result
  {
    result := 0;
    for k := 0 to |frames|
      invariant forall j | 0 <= j < k :: |frames[j]| <= result
      invariant k > 0 ==> exists f :: f in frames && |f| == result
    {
      assert frames[k] in frames;
      if |frames[k]| > result || k == 0 {
        result := |frames[k]|;
      }
    }
  }

  /** The length of the longest common prefix, up to a cap. */
  method CommonPrefixLength(frames: Frames, cap: nat) returns (prefix: nat)
    requires frames != []
    ensures prefix <= cap && forall k | 0 <= k < prefix :: AgreeAt(frames, k)
    ensures prefix == cap || !AgreeAt(frames, prefix)
    ensures forall f | f in frames :: prefix <= |f|
  {
    var shortest := MinFrameSize(frames);
    var limit := if shortest < cap then shortest else cap;
    prefix := 0;
    while prefix < limit
      invariant prefix <= limit && forall k | 0 <= k < prefix :: AgreeAt(frames, k)
    {
      if !AgreeAt(frames, prefix) {
        break;
      }
      prefix := prefix + 1;
    }
  }

  // ----- Reading a number -----

  lemma {:induction false} LittleGrows(s: seq<byte>, b: byte)
    ensures LittleValue(s + [b]) == LittleValue(s) + b * Pow256(|s|)
  {
    if s == [] {
      assert ([b])[1..] == [] && s + [b] == [b];
    } else {
      assert (s + [b])[1..] == s[1..] + [b];
      LittleGrows(s[1..], b);
      Scaled(b, Pow256(|s| - 1));
    }
  }

  lemma Scaled(b: nat, p: nat)
    ensures 256 * (b * p) == b * (256 * p)
  {}

  /** Reads a number byte by byte in either byte order. */
  method ReadLengthValue(frame: seq<byte>, offset: nat, width: nat, order: ByteOrder) returns (value: nat)
    requires offset + width <= |frame|
    ensures value == FromBytes(frame[offset..offset + width], order)
  {
    value := 0;
    match order {
      case LittleEndian =>
        for i := 0 to width
          invariant value == LittleValue(frame[offset..offset + i])
        {
          assert frame[offset..offset + i + 1] == frame[offset..offset + i] + [frame[offset + i]];
          LittleGrows(frame[offset..offset + i], frame[offset + i]);
          value := value + frame[offset + i] * Pow256(i);
        }
      case BigEndian =>
        for i := 0 to width
          invariant value == BigValue(frame[offset..offset + i])
        {
          assert frame[offset..offset + i + 1][..i] == frame[offset..offset + i];
          value := 256 * value + frame[offset + i];
        }
    }
  }

  // ----- Searching a length field -----

  const MAX_TRAILING: nat := 2

  /** Candidates start behind the common prefix, within the search distance and within every frame. */
  predicate Candidate(shortest: nat, prefix: nat, o: Options, c: LengthField) {
    && prefix <= c.offset < shortest && c.offset <= prefix + o.searchBytes
    && 1 <= c.width <= o.maxWidth && c.offset + c.width <= shortest
    && (c.width == 1 ==> c.order.LittleEndian?) && c.trailing <= MAX_TRAILING
  }

  /** The order of the search: by offset, then width, then byte order, then trailing bytes. */
  predicate Before(a: LengthField, b: LengthField) {
    if a.offset != b.offset then a.offset < b.offset
    else if a.width != b.width then a.width < b.width
    else if a.order != b.order then a.order.LittleEndian?
    else a.trailing < b.trailing
  }

  method ExplainsAll(frames: Frames, c: LengthField) returns (valid: bool)
    ensures valid <==> Explains(frames, c)
  {
    for k := 0 to |frames|
      invariant forall j | 0 <= j < k :: ExplainsFrame(frames[j], c)
    {
      var frame := frames[k];
      assert frame in frames;
      if |frame| < c.offset + c.width + c.trailing {
        return false;
      }
      var value := ReadLengthValue(frame, c.offset, c.width, c.order);
      if value != |frame| - c.offset - c.width - c.trailing {
        return false;
      }
    }
    return true;
  }

  /** The first number of trailing bytes with which a length field explains the frames. */
  method TryTrailing(frames: Frames, offset: nat, width: nat, order: ByteOrder) returns (r: Option<LengthField>)
    ensures r.Some? ==> r.value == LengthField(offset, width, order, r.value.trailing) && r.value.trailing <= MAX_TRAILING
    ensures r.Some? ==> Explains(frames, r.value)
    ensures r.Some? ==> forall t: nat | t < r.value.trailing :: !Explains(frames, LengthField(offset, width, order, t))
    ensures r.None? ==> forall t: nat | t <= MAX_TRAILING :: !Explains(frames, LengthField(offset, width, order, t))
  {
    for trailing := 0 to MAX_TRAILING + 1
      invariant forall t: nat | t < trailing :: !Explains(frames, LengthField(offset, width, order, t))
    {
      var valid := ExplainsAll(frames, LengthField(offset, width, order, trailing));
      if valid {
        return Some(LengthField(offset, width, order, trailing));
      }
    }
    return None;
  }

  /** No candidate before this one explains the frames. */
  ghost predicate NoneBefore(frames: Frames, shortest: nat, prefix: nat, o: Options, c: LengthField) {
    forall e | Candidate(shortest, prefix, o, e) && Before(e, c) :: !Explains(frames, e)
  }

  ghost predicate IsFirst(frames: Frames, shortest: nat, prefix: nat, o: Options, c: LengthField) {
    Candidate(shortest, prefix, o, c) && Explains(frames, c) && NoneBefore(frames, shortest, prefix, o, c)
  }

  /** The least candidate at an offset and width. */
  function LeastAt(offset: nat, width: nat): LengthField {
    LengthField(offset, width, LittleEndian, 0)
  }

  method TryOrders(frames: Frames, shortest: nat, prefix: nat, o: Options, offset: nat, width: nat) returns (r: Option<LengthField>)
    requires Candidate(shortest, prefix, o, LeastAt(offset, width)) && NoneBefore(frames, shortest, prefix, o, LeastAt(offset, width))
    ensures r.Some? ==> IsFirst(frames, shortest, prefix, o, r.value)
    ensures r.None? ==> NoneBefore(frames, shortest, prefix, o, LeastAt(offset, width + 1))
  {
    r := TryTrailing(frames, offset, width, LittleEndian);
    if r.Some? || width == 1 {
      return;
    }
    r := TryTrailing(frames, offset, width, BigEndian);
  }

  method TryWidths(frames: Frames, shortest: nat, prefix: nat, o: Options, offset: nat) returns (r: Option<LengthField>)
    requires prefix <= offset < shortest && offset <= prefix + o.searchBytes
    requires NoneBefore(frames, shortest, prefix, o, LeastAt(offset, 1))
    ensures r.Some? ==> IsFirst(frames, shortest, prefix, o, r.value)
    ensures r.None? ==> NoneBefore(frames, shortest, prefix, o, LeastAt(offset + 1, 1))
  {
    var width := 1;
    while width <= o.maxWidth
      invariant 1 <= width <= o.maxWidth + 1 && NoneBefore(frames, shortest, prefix, o, LeastAt(offset, width))
    {
      if offset + width <= shortest {
        r := TryOrders(frames, shortest, prefix, o, offset, width);
        if r.Some? {
          return;
        }
      }
      width := width + 1;
    }
    r := None;
  }

  /** The first candidate, in the order of the search, that explains every frame; none when there is none. */
  method InferLengthField(frames: Frames, shortest: nat, prefix: nat, o: Options) returns (r: Option<LengthField>)
    ensures r.Some? ==> IsFirst(frames, shortest, prefix, o, r.value)
    ensures r.None? ==> forall c | Candidate(shortest, prefix, o, c) :: !Explains(frames, c)
  {
    if shortest <= prefix {
      return None;
    }
    var last := if shortest - 1 < prefix + o.searchBytes then shortest - 1 else prefix + o.searchBytes;
    var offset := prefix;
    while offset <= last
      invariant prefix <= offset <= last + 1 && NoneBefore(frames, shortest, prefix, o, LeastAt(offset, 1))
    {
      r := TryWidths(frames, shortest, prefix, o, offset);
      if r.Some? {
        return;
      }
      offset := offset + 1;
    }
    r := None;
  }

  // ----- Drafting a message -----

  function Decimal(n: nat): (s: string)
    ensures s != ""
  {
    var digit := ["0", "1", "2", "3", "4", "5", "6", "7", "8", "9"][n % 10];
    if n < 10 then digit else Decimal(n / 10) + digit
  }

  function HexDigit(n: nat): (s: string)
    requires n < 16
    ensures s != ""
  {
    ["0", "1", "2", "3", "4", "5", "6", "7", "8", "9", "A", "B", "C", "D", "E", "F"][n]
  }

  function MessageName(frames: Frames, ordinal: nat): Name {
    if frames == [] || frames[0] == [] then Name("Message_" + Decimal(ordinal))
    else Name("Message_" + HexDigit(frames[0][0] / 16) + HexDigit(frames[0][0] % 16))
  }

  /** How many fields of each kind have been named so far. */
  datatype Counters = Counters(fields: nat, texts: nat, bytes: nat)

  /** The end of the run of positions, from one where the frames differ, up to the next where they agree. */
  method RunEnd(frames: Frames, position: nat, end: nat) returns (runEnd: nat)
    requires position < end && !AgreeAt(frames, position)
    ensures position < runEnd <= end && NowhereAgree(frames, position, runEnd)
    ensures runEnd == end || AgreeAt(frames, runEnd)
  {
    runEnd := position + 1;
    while runEnd < end
      invariant position < runEnd <= end && NowhereAgree(frames, position, runEnd)
    {
      if AgreeAt(frames, runEnd) {
        break;
      }
      runEnd := runEnd + 1;
    }
  }

  /** The field over a run in which the frames differ. */
  method RunField(frames: Frames, position: nat, runEnd: nat, counters: Counters) returns (f: FieldDefinition, next: Counters)
    requires position < runEnd && NowhereAgree(frames, position, runEnd)
    ensures Shows(frames, f, position) && SizeOfDraft(f) == runEnd - position && f.expected.None?
  {
    next := counters;
    if runEnd - position == 1 {
      f := ByteField("field_" + Decimal(counters.fields), None);
      next := counters.(fields := counters.fields + 1);
    } else if IsText(frames, position, runEnd) {
      f := FixedField("text_" + Decimal(counters.texts), Text, runEnd - position);
      next := counters.(texts := counters.texts + 1);
    } else {
      f := FixedField("bytes_" + Decimal(counters.bytes), Raw, runEnd - position);
      next := counters.(bytes := counters.bytes + 1);
    }
  }

  /** Of two neighbouring fields one is a constant: runs in which the frames differ are not cut. */
  predicate RunsAreLongest(defs: seq<FieldDefinition>) {
    forall k | 0 <= k < |defs| - 1 :: defs[k].expected.Some? || defs[k + 1].expected.Some?
  }

  /** The fields drawn so far, up to a position behind which the next field may follow: the last one is a
      constant, or the frames agree again. */
  ghost predicate DrawnUpTo(frames: Frames, defs: seq<FieldDefinition>, position: nat, end: nat) {
    && Draws(frames, defs) && Extent(defs) == position <= end && RunsAreLongest(defs)
    && (defs == [] || defs[|defs| - 1].expected.Some? || position == end || AgreeAt(frames, position))
  }

  lemma DrawnFurther(frames: Frames, defs: seq<FieldDefinition>, position: nat, end: nat, f: FieldDefinition)
    requires DrawnUpTo(frames, defs, position, end) && position < end
    requires Shows(frames, f, position) && position + SizeOfDraft(f) <= end
    requires f.expected.None? ==> position + SizeOfDraft(f) == end || AgreeAt(frames, position + SizeOfDraft(f))
    ensures DrawnUpTo(frames, defs + [f], position + SizeOfDraft(f), end)
  {
    DrawsMore(frames, defs, f);
    assert f.expected.None? ==> !AgreeAt(frames, position);
    var longer := defs + [f];
    forall k | 0 <= k < |longer| - 1
      ensures longer[k].expected.Some? || longer[k + 1].expected.Some?
    {
      if k + 1 < |defs| {
        assert defs[k].expected.Some? || defs[k + 1].expected.Some?;
      }
    }
  }

  /** Appends the fields of a fixed region: a constant wherever the frames agree, a field over every longest
      run in which they differ. */
  method AppendFixedRegion(frames: Frames, start: nat, end: nat, defs: seq<FieldDefinition>) returns (longer: seq<FieldDefinition>)
    requires DrawnUpTo(frames, defs, start, end)
    ensures DrawnUpTo(frames, longer, end, end)
  {
    longer := defs;
    var counters := Counters(0, 0, 0);
    var position := start;
    while position < end
      invariant DrawnUpTo(frames, longer, position, end)
    {
      var f;
      if AgreeAt(frames, position) {
        f := ByteField("fixed_" + Decimal(position), Some(frames[0][position]));
      } else {
        var runEnd := RunEnd(frames, position, end);
        f, counters := RunField(frames, position, runEnd, counters);
      }
      DrawnFurther(frames, longer, position, end, f);
      longer := longer + [f];
      position := position + SizeOfDraft(f);
    }
  }

  /** Constants for the common prefix. */
  method PrefixFields(frames: Frames, prefix: nat) returns (defs: seq<FieldDefinition>)
    requires frames != [] && forall k | 0 <= k < prefix :: AgreeAt(frames, k)
    ensures Draws(frames, defs) && Extent(defs) == prefix && forall k | 0 <= k < |defs| :: defs[k].expected.Some?
  {
    defs := [];
    for index := 0 to prefix
      invariant Draws(frames, defs) && Extent(defs) == index && forall k | 0 <= k < |defs| :: defs[k].expected.Some?
    {
      assert AgreeAt(frames, index) && frames[0] in frames;
      var f := ByteField(if index == 0 then "message_type" else "prefix_" + Decimal(index), Some(frames[0][index]));
      DrawsMore(frames, defs, f);
      defs := defs + [f];
    }
  }

  /** What was discovered about one cluster of frames. */
  datatype Discovered = Discovered(
    samples: Frames,
    sampleCount: nat,
    minSize: nat,
    maxSize: nat,
    prefix: nat,
    draft: Draft)

  /** The sizes and the common prefix recorded are those of the frames. */
  ghost predicate Measures(frames: Frames, o: Options, m: Discovered) {
    && (forall f | f in frames :: m.minSize <= |f| <= m.maxSize)
    && (exists f :: f in frames && |f| == m.minSize) && (exists f :: f in frames && |f| == m.maxSize)
    && m.prefix <= o.maxPrefix && (forall k | 0 <= k < m.prefix :: AgreeAt(frames, k))
    && (m.prefix == o.maxPrefix || !AgreeAt(frames, m.prefix))
  }

  /** The draft fits its frames; a length field is looked for exactly when they differ in length, and if
      none is found what lies behind the shortest frame is left open. */
  ghost predicate Describes(frames: Frames, o: Options, m: Discovered) {
    && Measures(frames, o, m) && IsDraft(frames, m.draft) && RunsAreLongest(m.draft.region)
    && (m.draft.length.Some? ==> m.minSize < m.maxSize && IsFirst(frames, m.minSize, m.prefix, o, m.draft.length.value))
    && (m.draft.definition.allowTrailing <==> m.draft.length.None? && m.minSize < m.maxSize)
    && (m.draft.definition.allowTrailing ==> forall c | Candidate(m.minSize, m.prefix, o, c) :: !Explains(frames, c))
    && (m.draft.length.None? ==> Extent(m.draft.region) == m.minSize)
  }

  /** Drafts the fields behind the common prefix. */
  method DraftFields(frames: Frames, name: Name, prefix: nat, minSize: nat, maxSize: nat, length: Option<LengthField>) returns (draft: Draft)
    requires frames != [] && prefix <= minSize <= maxSize && forall k | 0 <= k < prefix :: AgreeAt(frames, k)
    requires forall f | f in frames :: minSize <= |f| <= maxSize
    requires length.Some? ==> Explains(frames, length.value) && prefix <= length.value.offset && 1 <= length.value.width <= 8
    ensures IsDraft(frames, draft) && RunsAreLongest(draft.region) && draft.length == length
    ensures draft.definition.allowTrailing <==> length.None? && minSize < maxSize
    ensures length.None? ==> Extent(draft.region) == minSize
  {
    var region := PrefixFields(frames, prefix);
    var end := if length.Some? then length.value.offset else minSize;
    region := AppendFixedRegion(frames, prefix, end, region);
    match length {
      case Some(c) => draft := Draft(region, length, LayoutDefinition(name, region + CountedFields(c), false));
      case None => draft := Draft(region, length, LayoutDefinition(name, region, minSize != maxSize));
    }
  }

  method DiscoverMessage(frames: Frames, ordinal: nat, o: Options) returns (m: Discovered)
    requires frames != [] && o.maxWidth <= 8
    ensures Describes(frames, o, m)
    ensures m.samples <= frames && m.sampleCount == |frames|
  {
    var minSize := MinFrameSize(frames);
    var maxSize := MaxFrameSize(frames);
    assert frames[0] in frames;
    var prefix := CommonPrefixLength(frames, o.maxPrefix);
    var length: Option<LengthField> := None;
    if minSize != maxSize {
      length := InferLengthField(frames, minSize, prefix, o);
    }
    var draft := DraftFields(frames, MessageName(frames, ordinal), prefix, minSize, maxSize, length);
    var kept := if |frames| < o.samplesPerMessage then |frames| else o.samplesPerMessage;
    m := Discovered(frames[..kept], |frames|, minSize, maxSize, prefix, draft);
  }

  // ----- Clusters -----

  datatype Cluster = Cluster(frames: Frames, first: nat)

  /** The frames that start with the given byte, in their order. */
  function StartingWith(frames: Frames, key: byte): (r: Frames) {
    if frames == [] then []
    else
      var before := StartingWith(frames[..|frames| - 1], key);
      var f := frames[|frames| - 1];
      if f != [] && f[0] == key then before + [f] else before
  }

  lemma {:induction false} StartingWithMembers(frames: Frames, key: byte, f: seq<byte>)
    ensures f in StartingWith(frames, key) <==> f in frames && f != [] && f[0] == key
  {
    if frames != [] {
      StartingWithMembers(frames[..|frames| - 1], key, f);
      assert frames == frames[..|frames| - 1] + [frames[|frames| - 1]];
    }
  }

  /** A cluster holds the frames that start like its first one, which no earlier frame does. */
  ghost predicate IsCluster(frames: Frames, c: Cluster) {
    && c.first < |frames| && frames[c.first] != []
    && c.frames == StartingWith(frames, frames[c.first][0]) && c.frames != []
    && forall k | 0 <= k < c.first :: frames[k] != [] ==> frames[k][0] != frames[c.first][0]
  }

  ghost predicate ByFirst(clusters: seq<Cluster>) {
    forall i, j | 0 <= i < j < |clusters| :: clusters[i].first < clusters[j].first
  }

  ghost predicate AllClusters(frames: Frames, clusters: seq<Cluster>) {
    && (forall k | 0 <= k < |clusters| :: IsCluster(frames, clusters[k]))
    && ByFirst(clusters)
    && forall f | f in frames && f != [] :: exists k :: 0 <= k < |clusters| && f in clusters[k].frames
  }

  /** The clusters of the frames seen so far, by their first byte. */
  ghost predicate Grouped(frames: Frames, groups: map<byte, Cluster>) {
    forall key: byte ::
      && (key in groups <==> StartingWith(frames, key) != [])
      && (key in groups ==> groups[key].frames == StartingWith(frames, key) && IsFirstOf(frames, key, groups[key].first))
  }

  ghost predicate IsFirstOf(frames: Frames, key: byte, first: nat) {
    && first < |frames| && frames[first] != [] && frames[first][0] == key
    && forall k | 0 <= k < first :: frames[k] != [] ==> frames[k][0] != key
  }

  lemma GroupedGrows(frames: Frames, groups: map<byte, Cluster>, f: seq<byte>)
    requires Grouped(frames, groups) && f != []
    ensures var before := if f[0] in groups then groups[f[0]] else Cluster([], |frames|);
            Grouped(frames + [f], groups[f[0] := before.(frames := before.frames + [f])])
  {
    var longer := frames + [f];
    var before := if f[0] in groups then groups[f[0]] else Cluster([], |frames|);
    var groups' := groups[f[0] := before.(frames := before.frames + [f])];
    assert longer[..|frames|] == frames;
    forall key: byte
      ensures key in groups' <==> StartingWith(longer, key) != []
      ensures key in groups' ==> groups'[key].frames == StartingWith(longer, key) && IsFirstOf(longer, key, groups'[key].first)
    {
      assert StartingWith(longer, key) == if f[0] == key then StartingWith(frames, key) + [f] else StartingWith(frames, key);
      if key == f[0] && key !in groups {
        NoneStart(frames, key);
        assert IsFirstOf(longer, key, |frames|);
      } else if key in groups {
        assert IsFirstOf(frames, key, groups[key].first);
        assert IsFirstOf(longer, key, groups[key].first);
      }
    }
  }

  lemma NoneStart(frames: Frames, key: byte)
    requires StartingWith(frames, key) == []
    ensures forall k | 0 <= k < |frames| :: frames[k] != [] ==> frames[k][0] != key
  {
    forall k | 0 <= k < |frames| && frames[k] != []
      ensures frames[k][0] != key
    {
      StartingWithMembers(frames, key, frames[k]);
      assert frames[k] in frames;
    }
  }

  /** Puts a cluster in front of the first one that starts later. */
  function InsertByFirst(clusters: seq<Cluster>, c: Cluster): (r: seq<Cluster>)
    ensures forall e :: e in r <==> e == c || e in clusters
  {
    if clusters == [] then [c]
    else if c.first < clusters[0].first then [c] + clusters
    else [clusters[0]] + InsertByFirst(clusters[1..], c)
  }

  lemma {:induction false} InsertKeepsOrder(clusters: seq<Cluster>, c: Cluster)
    requires ByFirst(clusters) && forall e | e in clusters :: e.first != c.first
    ensures ByFirst(InsertByFirst(clusters, c))
  {
    if clusters != [] && c.first >= clusters[0].first {
      InsertKeepsOrder(clusters[1..], c);
      var rest := InsertByFirst(clusters[1..], c);
      forall k | 0 <= k < |rest|
        ensures clusters[0].first < rest[k].first
      {
        assert rest[k] in rest;
        if rest[k] != c {
          var m :| 0 <= m < |clusters[1..]| && clusters[1..][m] == rest[k];
          assert clusters[m + 1] == rest[k];
        }
      }
    }
  }

  /** Groups frames by their first byte, in the order in which the bytes first appear. */
  method GroupFrames(frames: Frames) returns (groups: map<byte, Cluster>)
    requires forall f | f in frames :: f != []
    ensures Grouped(frames, groups)
  {
    groups := map[];
    for index := 0 to |frames|
      invariant Grouped(frames[..index], groups)
    {
      var f := frames[index];
      assert f in frames && frames[..index + 1] == frames[..index] + [f];
      GroupedGrows(frames[..index], groups, f);
      var before := if f[0] in groups then groups[f[0]] else Cluster([], index);
      groups := groups[f[0] := before.(frames := before.frames + [f])];
    }
    assert frames[..|frames|] == frames;
  }

  /** The clusters whose key is below `limit` have been taken over. */
  ghost predicate TakenOver(groups: map<byte, Cluster>, clusters: seq<Cluster>, limit: nat) {
    && ByFirst(clusters)
    && (forall c | c in clusters :: exists key: byte :: key < limit && key in groups && groups[key] == c)
    && (forall key: byte | key < limit && key in groups :: groups[key] in clusters)
  }

  lemma TakeOverOne(frames: Frames, groups: map<byte, Cluster>, clusters: seq<Cluster>, key: byte)
    requires Grouped(frames, groups) && TakenOver(groups, clusters, key) && key in groups
    ensures TakenOver(groups, InsertByFirst(clusters, groups[key]), key + 1)
  {
    forall e | e in clusters
      ensures e.first != groups[key].first
    {
      var other: byte :| other < key && other in groups && groups[other] == e;
      assert IsFirstOf(frames, other, e.first) && IsFirstOf(frames, key, groups[key].first);
    }
    InsertKeepsOrder(clusters, groups[key]);
    var more := InsertByFirst(clusters, groups[key]);
    forall c | c in more
      ensures exists k: byte :: k < key + 1 && k in groups && groups[k] == c
    {
      if c != groups[key] {
        var k: byte :| k < key && k in groups && groups[k] == c;
      }
    }
  }

  /** One cluster of all frames, or one for each first byte in the order of appearance. */
  method ClusterFrames(frames: Frames, o: Options) returns (clusters: seq<Cluster>)
    requires frames != [] && forall f | f in frames :: f != []
    ensures !o.byFirstByte ==> clusters == [Cluster(frames, 0)]
    ensures o.byFirstByte ==> AllClusters(frames, clusters)
  {
    if !o.byFirstByte {
      return [Cluster(frames, 0)];
    }
    var groups := GroupFrames(frames);
    clusters := [];
    for key := 0 to 256
      invariant TakenOver(groups, clusters, key)
    {
      if key in groups {
        TakeOverOne(frames, groups, clusters, key);
        clusters := InsertByFirst(clusters, groups[key]);
      }
    }
    ClustersComplete(frames, groups, clusters);
  }

  lemma ClustersComplete(frames: Frames, groups: map<byte, Cluster>, clusters: seq<Cluster>)
    requires Grouped(frames, groups) && TakenOver(groups, clusters, 256)
    ensures AllClusters(frames, clusters)
  {
    forall k | 0 <= k < |clusters|
      ensures IsCluster(frames, clusters[k])
    {
      assert clusters[k] in clusters;
      var key: byte :| key in groups && groups[key] == clusters[k];
      assert IsFirstOf(frames, key, clusters[k].first);
    }
    forall f | f in frames && f != []
      ensures exists k :: 0 <= k < |clusters| && f in clusters[k].frames
    {
      StartingWithMembers(frames, f[0], f);
      assert f[0] in groups && groups[f[0]] in clusters;
      var k :| 0 <= k < |clusters| && clusters[k] == groups[f[0]];
    }
  }

  // ----- Discovering a protocol -----

  datatype DiscoveryError = InvalidOptions | NoSamples | DidNotCompile(error: CompileError)

  datatype Report = Report(
    clusters: seq<Cluster>,
    discarded: nat,
    messages: seq<Discovered>,
    compiled: SchemaCompiler.CompiledProtocol)

  /** The frames that are not empty, in their order. */
  function NonEmpty(frames: Frames): (r: Frames)
    ensures forall f :: f in r <==> f in frames && f != []
    ensures |r| <= |frames|
  {
    if frames == [] then []
    else
      assert frames == frames[..|frames| - 1] + [frames[|frames| - 1]];
      var before := NonEmpty(frames[..|frames| - 1]);
      if frames[|frames| - 1] == [] then before else before + [frames[|frames| - 1]]
  }

  /** The compiled draft of message `k` accepts a frame, and reads all of it unless bytes may follow. */
  ghost predicate AcceptedBy(r: Report, k: nat, f: seq<byte>)
    requires k < |r.compiled.messages| && k < |r.messages|
    requires Compiled(r.compiled.protocol, r.compiled.messages[k])
  {
    var outcome := BorrowedDecoder.Assign(r.compiled.protocol, r.compiled.messages[k], f, false);
    && outcome.Accepted?
    && (!r.messages[k].draft.definition.allowTrailing ==> outcome.consumed == |f|)
  }

  /** Every cluster has a message that describes it, and the compiled message accepts all its frames. */
  ghost predicate Faithful(o: Options, r: Report) {
    && |r.messages| == |r.clusters| == |r.compiled.messages|
    && forall k | 0 <= k < |r.clusters| ::
         && Describes(r.clusters[k].frames, o, r.messages[k])
         && Compiled(r.compiled.protocol, r.compiled.messages[k])
         && forall f | f in r.clusters[k].frames :: AcceptedBy(r, k, f)
  }

  /** The definition made of the drafts. */
  function DraftProtocol(messages: seq<Discovered>): (d: Definition)
    ensures d.structs == [] && d.enums == [] && |d.messages| == |messages|
    ensures forall k | 0 <= k < |messages| :: d.messages[k] == messages[k].draft.definition
  {
    Definition([], [], seq(|messages|, k requires 0 <= k < |messages| => messages[k].draft.definition))
  }

  lemma DraftIsSane(frames: Frames, m: Draft)
    requires IsDraft(frames, m)
    ensures LayoutSane(m.definition)
  {
    var fields := m.definition.fields;
    forall f | f in fields
      ensures Sane(f)
    {
      var k :| 0 <= k < |fields| && fields[k] == f;
      if k < |m.region| {
        DrawnField(frames, m.region, k);
        ShowsIsSimple(frames, m.region[k], Extent(m.region[..k]));
      }
    }
  }

  ghost predicate AllDescribed(clusters: seq<Cluster>, o: Options, messages: seq<Discovered>) {
    |messages| <= |clusters| && forall k | 0 <= k < |messages| :: Describes(clusters[k].frames, o, messages[k])
  }

  lemma ReportIsFaithful(o: Options, r: Report)
    requires |r.messages| == |r.clusters| && AllDescribed(r.clusters, o, r.messages)
    requires SchemaCompiler.Trustworthy(DraftProtocol(r.messages), r.compiled)
    ensures Faithful(o, r)
  {
    var d := DraftProtocol(r.messages);
    forall k | 0 <= k < |r.clusters|
      ensures Compiled(r.compiled.protocol, r.compiled.messages[k])
      ensures forall f | f in r.clusters[k].frames :: AcceptedBy(r, k, f)
    {
      assert Describes(r.clusters[k].frames, o, r.messages[k]);
      forall f | f in r.clusters[k].frames
        ensures AcceptedBy(r, k, f)
      {
        SamplesAreAccepted(r.compiled.protocol, d, r.clusters[k].frames, r.messages[k].draft, r.compiled.messages[k], f);
      }
    }
  }

  method DiscoverClusters(clusters: seq<Cluster>, o: Options) returns (messages: seq<Discovered>)
    requires o.maxWidth <= 8 && forall c | c in clusters :: c.frames != []
    ensures |messages| == |clusters| && AllDescribed(clusters, o, messages)
  {
    messages := [];
    for k := 0 to |clusters|
      invariant |messages| == k && AllDescribed(clusters, o, messages)
    {
      assert clusters[k] in clusters;
      var m := DiscoverMessage(clusters[k].frames, k, o);
      messages := messages + [m];
    }
  }

  /** Discovers a protocol from samples: a report is given only if the drafts compile, and then every sample
      that is not empty belongs to a cluster whose compiled draft accepts it. */
  method Discover(frames: Frames, o: Options, widths: map<string, nat>, registry: Registry, maxFields: nat)
    returns (r: Result<Report, DiscoveryError>)
    requires o.maxWidth <= 8
    ensures r.Ok? ==> Faithful(o, r.value)
    ensures r.Ok? ==> forall f | f in frames && f != [] :: exists k :: 0 <= k < |r.value.clusters| && f in r.value.clusters[k].frames
    ensures r.Ok? && o.byFirstByte ==> AllClusters(NonEmpty(frames), r.value.clusters)
    ensures r.Ok? ==> r.value.discarded == |frames| - |NonEmpty(frames)|
    ensures r == Err(NoSamples) ==> forall f | f in frames :: f == []
  {
    if o.protocolName == "" || o.samplesPerMessage == 0 {
      return Err(InvalidOptions);
    }
    if frames == [] {
      return Err(NoSamples);
    }
    var samples: Frames := [];
    for k := 0 to |frames|
      invariant samples == NonEmpty(frames[..k])
    {
      assert frames[..k + 1][..k] == frames[..k];
      if frames[k] != [] {
        samples := samples + [frames[k]];
      }
    }
    assert frames[..|frames|] == frames;
    if samples == [] {
      assert forall f | f in frames && f != [] :: f in samples;
      return Err(NoSamples);
    }
    r := DiscoverFrom(samples, |frames| - |samples|, o, widths, registry, maxFields);
  }

  method DiscoverFrom(samples: Frames, discarded: nat, o: Options, widths: map<string, nat>, registry: Registry, maxFields: nat)
    returns (r: Result<Report, DiscoveryError>)
    requires o.maxWidth <= 8 && samples != [] && forall f | f in samples :: f != []
    ensures r.Ok? ==> Faithful(o, r.value) && r.value.discarded == discarded
    ensures r.Ok? ==> forall f | f in samples :: exists k :: 0 <= k < |r.value.clusters| && f in r.value.clusters[k].frames
    ensures r.Ok? && o.byFirstByte ==> AllClusters(samples, r.value.clusters)
    ensures r.Err? ==> r.error.DidNotCompile?
  {
    var clusters := ClusterFrames(samples, o);
    forall c | c in clusters
      ensures c.frames != []
    {
      var k :| 0 <= k < |clusters| && clusters[k] == c;
      assert o.byFirstByte ==> IsCluster(samples, clusters[k]);
    }
    var messages := DiscoverClusters(clusters, o);
    var d := DraftProtocol(messages);
    forall l | l in d.messages
      ensures LayoutSane(l)
    {
      var k :| 0 <= k < |d.messages| && d.messages[k] == l;
      DraftIsSane(clusters[k].frames, messages[k].draft);
    }
    var compiled := SchemaCompiler.Compile(d, widths, registry, maxFields);
    if compiled.Err? {
      return Err(DidNotCompile(compiled.error));
    }
    var report := Report(clusters, discarded, messages, compiled.value);
    ReportIsFaithful(o, report);
    assert !o.byFirstByte ==> clusters[0].frames == samples;
    return Ok(report);
  }
}
