/** What the decoder, the views, the index and the builders may rely on for every message the compiler
    returns. */
module CompiledMessages {
  import opened Prelude
  import opened Bytes
  import opened Metadata
  import opened SchemaLayouts
  import opened SchemaCompiler
  import opened BorrowedDecoder
  import BorrowedSizes
  import BorrowedViews
  import Dispatch
  import MessageFrames
  import ContiguousBuilder
  import SegmentedBuilder

  /** The fixed-size flags of compiled structs and messages are sound. */
  lemma CompiledFlags(d: Definition, c: CompiledProtocol, k: nat)
    requires Trustworthy(d, c) && k < |c.messages|
    ensures Compiled(c.protocol, c.messages[k]) && BorrowedSizes.FlagsSound(c.protocol, c.messages[k])
  {
    assert LayoutSound(c.protocol, d, d.messages[k], c.messages[k]);
    StructFlags(d, c);
  }

  lemma StructFlags(d: Definition, c: CompiledProtocol)
    requires Trustworthy(d, c)
    ensures forall id | 0 <= id < |c.protocol.structs| ::
              c.protocol.structs[id].hasFixedSize ==> AllFixed(c.protocol.structs, c.protocol.structs[id].fields)
  {
    forall id | 0 <= id < |c.protocol.structs|
      ensures c.protocol.structs[id].hasFixedSize ==> AllFixed(c.protocol.structs, c.protocol.structs[id].fields)
    {
      assert LayoutSound(c.protocol, d, d.structs[id], c.protocol.structs[id]);
    }
  }

  /** A frame that a compiled message accepts takes at least its minimum size, and exactly that when the
      compiler says its size is fixed. */
  lemma CompiledMessageSize(d: Definition, c: CompiledProtocol, k: nat, frame: seq<byte>, prefix: bool)
    requires Trustworthy(d, c) && k < |c.messages|
    ensures Compiled(c.protocol, c.messages[k])
    ensures var r := Assign(c.protocol, c.messages[k], frame, prefix);
            r.Accepted? ==> r.consumed >= c.messages[k].minimumSize
                            && (c.messages[k].hasFixedSize ==> r.consumed == c.messages[k].minimumSize)
  {
    CompiledFlags(d, c, k);
    if Assign(c.protocol, c.messages[k], frame, prefix).Accepted? {
      BorrowedSizes.AssignTakesMinimum(c.protocol, c.messages[k], frame, prefix);
      if c.messages[k].hasFixedSize {
        BorrowedSizes.FixedLayout(c.protocol, c.messages[k], frame, prefix);
      }
    }
  }

  /** The same of a compiled struct, decoded from wherever it lies. */
  lemma CompiledStructSize(d: Definition, c: CompiledProtocol, id: nat, frame: seq<byte>, prefix: bool)
    requires Trustworthy(d, c) && id < |c.protocol.structs|
    ensures var s := c.protocol.structs[id];
            && Compiled(c.protocol, s) && BorrowedSizes.FlagsSound(c.protocol, s)
            && var r := Assign(c.protocol, s, frame, prefix);
               r.Accepted? ==> r.consumed >= s.minimumSize && (s.hasFixedSize ==> r.consumed == s.minimumSize)
  {
    var s := c.protocol.structs[id];
    assert LayoutSound(c.protocol, d, d.structs[id], s);
    StructFlags(d, c);
    if Assign(c.protocol, s, frame, prefix).Accepted? {
      BorrowedSizes.AssignTakesMinimum(c.protocol, s, frame, prefix);
      if s.hasFixedSize {
        BorrowedSizes.FixedLayout(c.protocol, s, frame, prefix);
      }
    }
  }

  predicate AllRunsPacked(messages: seq<Layout>) {
    forall k | 0 <= k < |messages| :: PackedRun(messages[k].fields, 0)
  }

  /** A compiled message whose leading constants are packed has a sound dispatch prefix. */
  lemma CompiledPrefix(d: Definition, c: CompiledProtocol, k: nat)
    requires Trustworthy(d, c) && k < |c.messages| && PackedRun(c.messages[k].fields, 0)
    ensures PrefixSound(c.messages[k])
  {
    assert LayoutSound(c.protocol, d, d.messages[k], c.messages[k]);
    PackedPrefix(c.messages[k]);
  }

  /** Over compiled messages whose leading constants are packed the dispatch index finds a message exactly
      when trying them all does. */
  lemma CompiledIndexAgrees(d: Definition, c: CompiledProtocol, frame: seq<byte>)
    requires Trustworthy(d, c) && AllRunsPacked(c.messages)
    ensures Dispatch.AllCompiled(c.protocol, c.messages)
    ensures (exists k: nat :: k < |c.messages| && Dispatch.Takes(c.protocol, c.messages, frame, k))
            <==> (exists k: nat :: k < |c.messages| && Dispatch.DecodeAs(c.protocol, c.messages[k], frame).Decoded?)
  {
    forall k | 0 <= k < |c.messages|
      ensures PrefixSound(c.messages[k])
    {
      CompiledPrefix(d, c, k);
    }
    Dispatch.IndexAgreesWithScan(c.protocol, c.messages, frame);
  }

  /** Compiles a definition into messages whose sizes can be relied on. */
  method CompileSized(d: Definition, widths: map<string, nat>, registry: Registry, maxFields: nat)
    returns (r: Result<CompiledProtocol, CompileError>)
    ensures r.Ok? && AllSane(d) ==> Trustworthy(d, r.value)
    ensures r.Ok? && AllSane(d) ==>
              forall k: nat, frame: seq<byte>, prefix: bool | k < |r.value.messages| :: Sized(r.value, k, frame, prefix)
  {
    r := Compile(d, widths, registry, maxFields);
    if r.Ok? && AllSane(d) {
      forall k: nat, frame: seq<byte>, prefix: bool | k < |r.value.messages|
        ensures Sized(r.value, k, frame, prefix)
      {
        CompiledMessageSize(d, r.value, k, frame, prefix);
      }
    }
  }

  /** What is accepted as message `k` is as large as the metadata says. */
  ghost predicate Sized(c: CompiledProtocol, k: nat, frame: seq<byte>, prefix: bool)
    requires k < |c.messages|
  {
    && Compiled(c.protocol, c.messages[k])
    && var r := Assign(c.protocol, c.messages[k], frame, prefix);
       r.Accepted? ==> r.consumed >= c.messages[k].minimumSize
                       && (c.messages[k].hasFixedSize ==> r.consumed == c.messages[k].minimumSize)
  }

  /** Both builders can be set up for any compiled message. */
  method NewBuilders(c: CompiledProtocol, k: nat, buffer: array<byte>, scratch: array<byte>, maxSegments: nat)
    returns (a: ContiguousBuilder.MessageBuilder, b: SegmentedBuilder.SegmentedMessageBuilder)
    requires k < |c.messages| && Compiled(c.protocol, c.messages[k]) && 2 * |c.messages[k].fields| <= maxSegments
    ensures a.Valid() && b.Valid() && a.p == b.p == c.protocol && a.layout == b.layout == c.messages[k]
    ensures a.calls == b.calls == [] && a.buffer == buffer && b.scratch == scratch && fresh(a) && fresh(b)
  {
    MessageFrames.CompiledIsUsable(c.protocol, c.messages[k]);
    a := new ContiguousBuilder.MessageBuilder(c.protocol, c.messages[k], buffer);
    b := new SegmentedBuilder.SegmentedMessageBuilder(c.protocol, c.messages[k], scratch, maxSegments);
  }
}
