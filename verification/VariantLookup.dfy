/** Finding the case of a tag: a dense table when the tags lie close together, binary search otherwise. */
module VariantLookup {
  import opened Prelude
  import opened Metadata
  import Codec
  import SchemaLayouts

  /** The largest range of tags a dense table is built for. */
  const MAX_DENSE_SPAN: nat := 256

  /** A dense table: the tag of its first entry and, per tag, the index of its case if there is one. No
      entries at all means that there is no table. */
  datatype Table = Table(base: nat, indices: seq<Option<nat>>)

  predicate DistinctTags(cases: seq<VariantCase>) {
    forall i, j | 0 <= i < j < |cases| :: cases[i].tag != cases[j].tag
  }

  function Last(cases: seq<VariantCase>): VariantCase
    requires cases != []
  {
    cases[|cases| - 1]
  }

  /** The last case with the given tag among the first `n`. */
  function LastWith(cases: seq<VariantCase>, tag: nat, n: nat): (r: Option<nat>)
    requires n <= |cases|
    ensures r.Some? ==> r.value < n && cases[r.value].tag == tag && forall k | r.value < k < n :: cases[k].tag != tag
    ensures r.None? ==> forall k | 0 <= k < n :: cases[k].tag != tag
  {
    if n == 0 then None else if cases[n - 1].tag == tag then Some(n - 1) else LastWith(cases, tag, n - 1)
  }

  /** The table the compiler fills in over the sorted cases. */
  ghost predicate TableFor(cases: seq<VariantCase>, t: Table) {
    cases != [] &&
    if Last(cases).tag - cases[0].tag + 1 <= MAX_DENSE_SPAN then
      && t.base == cases[0].tag && |t.indices| == Last(cases).tag - cases[0].tag + 1
      && forall k | 0 <= k < |t.indices| :: t.indices[k] == LastWith(cases, t.base + k, |cases|)
    else t.indices == []
  }

  /** Builds the table; of cases with equal tags the last one stays. */
  method BuildTable(cases: seq<VariantCase>) returns (t: Table)
    requires cases != [] && SchemaLayouts.SortedByTag(cases)
    ensures TableFor(cases, t)
  {
    var minTag, maxTag := cases[0].tag, Last(cases).tag;
    assert minTag <= maxTag;
    var span := maxTag - minTag + 1;
    if span > MAX_DENSE_SPAN {
      return Table(0, []);
    }
    var indices: seq<Option<nat>> := seq(span, _ => None);
    for i := 0 to |cases|
      invariant |indices| == span
      invariant forall k | 0 <= k < span :: indices[k] == LastWith(cases, minTag + k, i)
    {
      assert minTag <= cases[i].tag <= maxTag by {
        assert i == 0 || cases[0].tag <= cases[i].tag;
        assert i == |cases| - 1 || cases[i].tag <= cases[|cases| - 1].tag;
      }
      indices := indices[cases[i].tag - minTag := Some(i)];
    }
    return Table(minTag, indices);
  }

  /** Finds the case of a tag the way the decoder does. */
  method FindVariantCase(cases: seq<VariantCase>, t: Table, tag: nat) returns (r: Option<nat>)
    requires SchemaLayouts.SortedByTag(cases) && TableFor(cases, t)
    ensures r.Some? ==> r.value < |cases| && cases[r.value].tag == tag
    ensures r.None? ==> forall k | 0 <= k < |cases| :: cases[k].tag != tag
    ensures t.indices == [] ==> r == Codec.FindCase(cases, tag, 0)
    ensures t.indices != [] ==> r == LastWith(cases, tag, |cases|)
  {
    if t.indices != [] {
      if tag < t.base {
        assert forall k | 0 <= k < |cases| :: cases[0].tag <= cases[k].tag;
        return None;
      }
      var dense := tag - t.base;
      if dense < |t.indices| {
        return t.indices[dense];
      }
    }
    var low, high := 0, |cases|;
    while low < high
      invariant 0 <= low <= high <= |cases|
      invariant forall k | 0 <= k < low :: cases[k].tag < tag
      invariant forall k | high <= k < |cases| :: tag <= cases[k].tag
    {
      var middle := (low + high) / 2;
      if cases[middle].tag < tag {
        low := middle + 1;
      } else {
        high := middle;
      }
    }
    FirstFrom(cases, tag, low);
    return if low < |cases| && cases[low].tag == tag then Some(low) else None;
  }

  lemma FirstFrom(cases: seq<VariantCase>, tag: nat, n: nat)
    requires n <= |cases| && SchemaLayouts.SortedByTag(cases)
    requires forall k | 0 <= k < n :: cases[k].tag < tag
    requires forall k | n <= k < |cases| :: tag <= cases[k].tag
    ensures Codec.FindCase(cases, tag, 0) == if n < |cases| && cases[n].tag == tag then Some(n) else None
    ensures Codec.FindCase(cases, tag, 0).None? ==> forall k | 0 <= k < |cases| :: cases[k].tag != tag
  {
    FirstSkips(cases, tag, 0, n);
    if n < |cases| && cases[n].tag != tag {
      assert forall k | n <= k < |cases| :: cases[n].tag <= cases[k].tag;
    }
  }

  lemma {:induction false} FirstSkips(cases: seq<VariantCase>, tag: nat, from: nat, n: nat)
    requires from <= n <= |cases| && forall k | from <= k < n :: cases[k].tag != tag
    ensures Codec.FindCase(cases, tag, from) == Codec.FindCase(cases, tag, n)
    decreases n - from
  {
    if from < n {
      FirstSkips(cases, tag, from + 1, n);
    }
  }

  lemma FirstIsFirst(cases: seq<VariantCase>, tag: nat, k: nat)
    requires k < |cases| && cases[k].tag == tag && forall j | 0 <= j < k :: cases[j].tag != tag
    ensures Codec.FindCase(cases, tag, 0) == Some(k)
  {
    FirstSkips(cases, tag, 0, k);
  }

  /** Table, binary search and a scan from the front agree on every tag exactly when no tag repeats. */
  lemma TableAgreesWithScan(cases: seq<VariantCase>)
    ensures DistinctTags(cases) <==>
            forall tag: nat :: LastWith(cases, tag, |cases|) == Codec.FindCase(cases, tag, 0)
  {
    if DistinctTags(cases) {
      forall tag: nat
        ensures LastWith(cases, tag, |cases|) == Codec.FindCase(cases, tag, 0)
      {
        var r := LastWith(cases, tag, |cases|);
        if r.Some? {
          FirstIsFirst(cases, tag, r.value);
        }
      }
    } else {
      var i, j :| 0 <= i < j < |cases| && cases[i].tag == cases[j].tag;
      var tag := cases[i].tag;
      var k := FirstOf(cases, tag, i);
      FirstIsFirst(cases, tag, k);
      assert LastWith(cases, tag, |cases|) != Codec.FindCase(cases, tag, 0);
    }
  }

  lemma FirstOf(cases: seq<VariantCase>, tag: nat, i: nat) returns (k: nat)
    requires i < |cases| && cases[i].tag == tag
    ensures k <= i && cases[k].tag == tag && forall j | 0 <= j < k :: cases[j].tag != tag
  {
    k := 0;
    while cases[k].tag != tag
      invariant k <= i && forall j | 0 <= j < k :: cases[j].tag != tag
      decreases i - k
    {
      k := k + 1;
    }
  }
}
