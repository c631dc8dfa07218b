/** Frames in segments: pieces of a scratch buffer and borrowed bytes, one after the other. */
module Segments {
  import opened Prelude
  import opened Bytes
  import Codec

  /** A segment: a piece of the scratch buffer, or bytes of the caller's. */
  datatype Segment = Owned(from: nat, length: nat) | Borrowed(bytes: seq<byte>)
  {
    function Size(): nat {
      if Owned? then length else |bytes|
    }
  }

  function Total(segments: seq<Segment>): nat {
    if segments == [] then 0 else Total(segments[..|segments| - 1]) + segments[|segments| - 1].Size()
  }

  /** Where the scratch pieces end. */
  function OwnedEnd(segments: seq<Segment>): nat {
    if segments == [] then 0
    else
      var last := segments[|segments| - 1];
      OwnedEnd(segments[..|segments| - 1]) + if last.Owned? then last.length else 0
  }

  /** The scratch pieces are handed out one behind the other. */
  ghost predicate InOrder(segments: seq<Segment>) {
    segments == [] ||
    (InOrder(segments[..|segments| - 1]) &&
     var last := segments[|segments| - 1];
     last.Owned? ==> last.from == OwnedEnd(segments[..|segments| - 1]))
  }

  function SegmentBytes(scratch: seq<byte>, g: Segment): (s: seq<byte>)
    requires g.Owned? ==> g.from + g.length <= |scratch|
    ensures |s| == g.Size()
  {
    if g.Owned? then scratch[g.from..g.from + g.length] else g.bytes
  }

  /** The bytes of all segments. */
  function Content(scratch: seq<byte>, segments: seq<Segment>): (s: seq<byte>)
    requires InOrder(segments) && OwnedEnd(segments) <= |scratch|
    ensures |s| == Total(segments)
  {
    if segments == [] then []
    else Content(scratch, segments[..|segments| - 1]) + SegmentBytes(scratch, segments[|segments| - 1])
  }

  lemma {:induction false} PrefixInOrder(segments: seq<Segment>, k: nat)
    requires InOrder(segments) && k <= |segments|
    ensures InOrder(segments[..k]) && OwnedEnd(segments[..k]) <= OwnedEnd(segments) && Total(segments[..k]) <= Total(segments)
    decreases |segments|
  {
    if k < |segments| {
      PrefixInOrder(segments[..|segments| - 1], k);
      assert segments[..|segments| - 1][..k] == segments[..k];
    } else {
      assert segments[..k] == segments;
    }
  }

  /** Only the scratch pieces in use matter. */
  lemma {:induction false} SameContent(scratch: seq<byte>, scratch': seq<byte>, segments: seq<Segment>)
    requires InOrder(segments) && OwnedEnd(segments) <= |scratch| && OwnedEnd(segments) <= |scratch'|
    requires scratch[..OwnedEnd(segments)] == scratch'[..OwnedEnd(segments)]
    ensures Content(scratch, segments) == Content(scratch', segments)
    decreases |segments|
  {
    if segments != [] {
      var front, n := segments[..|segments| - 1], OwnedEnd(segments);
      assert scratch[..OwnedEnd(front)] == scratch[..n][..OwnedEnd(front)];
      assert scratch'[..OwnedEnd(front)] == scratch'[..n][..OwnedEnd(front)];
      SameContent(scratch, scratch', front);
      var last := segments[|segments| - 1];
      if last.Owned? {
        assert scratch[last.from..n] == scratch[..n][last.from..n];
        assert scratch'[last.from..n] == scratch'[..n][last.from..n];
      }
    }
  }

  /** Segment `k` lies at its offset in the content. */
  lemma {:induction false} SegmentInContent(scratch: seq<byte>, segments: seq<Segment>, k: nat)
    requires InOrder(segments) && OwnedEnd(segments) <= |scratch| && k < |segments|
    ensures segments[k].Owned? ==> segments[k].from + segments[k].length <= OwnedEnd(segments)
    ensures InOrder(segments[..k]) && Total(segments[..k]) + segments[k].Size() <= Total(segments)
    ensures Content(scratch, segments)[Total(segments[..k])..Total(segments[..k]) + segments[k].Size()] == SegmentBytes(scratch, segments[k])
    decreases |segments|
  {
    var n := |segments| - 1;
    if k < n {
      SegmentInContent(scratch, segments[..n], k);
      assert segments[..n][..k] == segments[..k];
      var a, b := Total(segments[..k]), Total(segments[..k]) + segments[k].Size();
      assert Content(scratch, segments)[a..b] == Content(scratch, segments[..n])[a..b];
    }
  }

  lemma PatchKeeps(s: seq<byte>, at: nat, bytes: seq<byte>)
    requires at + |bytes| <= |s|
    ensures var t := Codec.Patch(s, at, bytes);
            && |t| == |s| && t[..at] == s[..at] && t[at + |bytes|..] == s[at + |bytes|..]
  {
  }

  /** Overwriting the front of a scratch piece overwrites that stretch of the content and nothing else. */
  lemma {:induction false} PatchContent(scratch: seq<byte>, segments: seq<Segment>, k: nat, bytes: seq<byte>)
    requires InOrder(segments) && OwnedEnd(segments) <= |scratch| && k < |segments|
    requires segments[k].Owned? && |bytes| <= segments[k].length && segments[k].from + segments[k].length <= |scratch|
    ensures |Codec.Patch(scratch, segments[k].from, bytes)| == |scratch|
    ensures Total(segments[..k]) + |bytes| <= Total(segments)
    ensures Content(Codec.Patch(scratch, segments[k].from, bytes), segments)
            == Codec.Patch(Content(scratch, segments), Total(segments[..k]), bytes)
    decreases |segments|
  {
    PatchKeeps(scratch, segments[k].from, bytes);
    var n := |segments| - 1;
    if k < n {
      var front := segments[..n];
      PatchContent(scratch, front, k, bytes);
      assert front[..k] == segments[..k];
      SegmentInContent(scratch, front, k);
      PatchEarlier(scratch, segments, k, bytes);
    } else {
      PatchLast(scratch, segments, bytes);
    }
  }

  lemma PatchEarlier(scratch: seq<byte>, segments: seq<Segment>, k: nat, bytes: seq<byte>)
    requires InOrder(segments) && OwnedEnd(segments) <= |scratch| && k < |segments| - 1
    requires segments[k].Owned? && |bytes| <= segments[k].length
    requires var front := segments[..|segments| - 1];
             && segments[k].from + segments[k].length <= OwnedEnd(front) && Total(segments[..k]) + |bytes| <= Total(front)
             && |Codec.Patch(scratch, segments[k].from, bytes)| == |scratch|
             && Content(Codec.Patch(scratch, segments[k].from, bytes), front) == Codec.Patch(Content(scratch, front), Total(segments[..k]), bytes)
    ensures Content(Codec.Patch(scratch, segments[k].from, bytes), segments)
            == Codec.Patch(Content(scratch, segments), Total(segments[..k]), bytes)
  {
    var front, last := segments[..|segments| - 1], segments[|segments| - 1];
    var after := Codec.Patch(scratch, segments[k].from, bytes);
    var end := segments[k].from + |bytes|;
    PatchKeeps(scratch, segments[k].from, bytes);
    if last.Owned? {
      assert after[last.from..last.from + last.length] == after[end..][last.from - end..last.from + last.length - end];
      assert scratch[last.from..last.from + last.length] == scratch[end..][last.from - end..last.from + last.length - end];
    }
    PatchInFront(Content(scratch, front), SegmentBytes(scratch, last), Total(segments[..k]), bytes);
  }

  lemma PatchLast(scratch: seq<byte>, segments: seq<Segment>, bytes: seq<byte>)
    requires InOrder(segments) && OwnedEnd(segments) <= |scratch| && segments != []
    requires var last := segments[|segments| - 1];
             last.Owned? && |bytes| <= last.length && |Codec.Patch(scratch, last.from, bytes)| == |scratch|
    ensures Content(Codec.Patch(scratch, segments[|segments| - 1].from, bytes), segments)
            == Codec.Patch(Content(scratch, segments), Total(segments[..|segments| - 1]), bytes)
  {
    var front, last := segments[..|segments| - 1], segments[|segments| - 1];
    var after := Codec.Patch(scratch, last.from, bytes);
    PatchKeeps(scratch, last.from, bytes);
    SameContent(after, scratch, front);
    PatchAtEnd(scratch, last.from, last.length, bytes, Content(scratch, front));
  }

  lemma PatchInFront(a: seq<byte>, b: seq<byte>, at: nat, bytes: seq<byte>)
    requires at + |bytes| <= |a|
    ensures Codec.Patch(a + b, at, bytes) == Codec.Patch(a, at, bytes) + b
  {
  }

  lemma PatchAtEnd(scratch: seq<byte>, from: nat, length: nat, bytes: seq<byte>, a: seq<byte>)
    requires from + length <= |scratch| && |bytes| <= length
    ensures a + Codec.Patch(scratch, from, bytes)[from..from + length]
            == Codec.Patch(a + scratch[from..from + length], |a|, bytes)
  {
    var n, own := |bytes|, scratch[from..from + length];
    PatchSlice(scratch, from, length, bytes);
    assert (a + own)[|a| + n..] == own[n..] == scratch[from + n..from + length];
    assert (a + own)[..|a|] == a;
  }

  lemma PatchSlice(scratch: seq<byte>, from: nat, length: nat, bytes: seq<byte>)
    requires from + length <= |scratch| && |bytes| <= length
    ensures Codec.Patch(scratch, from, bytes)[from..from + length] == bytes + scratch[from + |bytes|..from + length]
  {
    var after := Codec.Patch(scratch, from, bytes);
    assert after == scratch[..from] + (bytes + scratch[from + |bytes|..]);
  }

  // ----- Ranges of the content -----

  function Flatten(chunks: seq<seq<byte>>): seq<byte> {
    if chunks == [] then [] else Flatten(chunks[..|chunks| - 1]) + chunks[|chunks| - 1]
  }

  function Min(a: nat, b: nat): nat {
    if a <= b then a else b
  }

  function Max(a: nat, b: nat): nat {
    if a <= b then b else a
  }

  /** The part of the range `from..to` that falls into `s`. */
  function Share(s: seq<byte>, from: nat, to: nat): seq<byte>
    requires from <= to
  {
    s[Min(from, |s|)..Min(to, |s|)]
  }

  /** The chunks with the next segment's share of the range, if it has one. */
  function WithShare(chunks: seq<seq<byte>>, bytes: seq<byte>, start: nat, from: nat, to: nat): seq<seq<byte>>
    requires from <= to
  {
    var end := start + |bytes|;
    if end <= from || start >= to then chunks
    else chunks + [bytes[Max(from, start) - start..Min(to, end) - start]]
  }

  /** A range takes its share of the next piece. */
  lemma ShareGrows(a: seq<byte>, b: seq<byte>, from: nat, to: nat, chunks: seq<seq<byte>>)
    requires from <= to && Flatten(chunks) == Share(a, from, to)
    ensures Flatten(WithShare(chunks, b, |a|, from, to)) == Share(a + b, from, to)
  {
    CutNext(a, b, from, to);
    var longer := WithShare(chunks, b, |a|, from, to);
    if longer != chunks {
      assert longer[..|longer| - 1] == chunks;
    }
  }

  lemma CutNext(a: seq<byte>, b: seq<byte>, from: nat, to: nat)
    requires from <= to
    ensures if |a| + |b| > from && |a| < to
            then Share(a + b, from, to) == Share(a, from, to) + b[Max(from, |a|) - |a|..Min(to, |a| + |b|) - |a|]
            else Share(a + b, from, to) == Share(a, from, to)
  {
  }

  lemma ContentGrows(scratch: seq<byte>, segments: seq<Segment>, k: nat)
    requires InOrder(segments) && OwnedEnd(segments) <= |scratch| && k < |segments|
    ensures InOrder(segments[..k]) && InOrder(segments[..k + 1]) && OwnedEnd(segments[..k + 1]) <= |scratch|
    ensures OwnedEnd(segments[..k]) <= |scratch| && (segments[k].Owned? ==> segments[k].from + segments[k].length <= |scratch|)
    ensures Content(scratch, segments[..k + 1]) == Content(scratch, segments[..k]) + SegmentBytes(scratch, segments[k])
  {
    PrefixInOrder(segments, k + 1);
    PrefixInOrder(segments, k);
    assert segments[..k + 1][..k] == segments[..k];
  }

  /** Cuts the range `from..to` of the content out of the segments, chunk by chunk. */
  method VisitRange(scratch: array<byte>, segments: seq<Segment>, from: nat, to: nat) returns (chunks: seq<seq<byte>>)
    requires InOrder(segments) && OwnedEnd(segments) <= scratch.Length && from <= to <= Total(segments)
    ensures Flatten(chunks) == Content(scratch[..], segments)[from..to]
  {
    chunks := [];
    var start: nat := 0;
    for k := 0 to |segments|
      invariant InOrder(segments[..k]) && OwnedEnd(segments[..k]) <= scratch.Length && start == Total(segments[..k])
      invariant Flatten(chunks) == Share(Content(scratch[..], segments[..k]), from, to)
    {
      ContentGrows(scratch[..], segments, k);
      var g := segments[k];
      var bytes := if g.Owned? then scratch[g.from..g.from + g.length] else g.bytes;
      assert bytes == SegmentBytes(scratch[..], g);
      ShareGrows(Content(scratch[..], segments[..k]), bytes, from, to, chunks);
      chunks := WithShare(chunks, bytes, start, from, to);
      start := start + |bytes|;
    }
    assert segments[..|segments|] == segments;
  }
}
