# Universal Protocol Runtime: verified model

Universal Protocol Runtime describes binary message layouts, compiles the descriptions into metadata and executes
the metadata: it encodes and decodes messages, builds frames without copying, and moves frames over streams and
through shared memory. This project models the parts whose correctness spans several functions and proves what
they promise each other.

- `Metadata`, `Codec*`: compiled layouts; the specification of the metadata-driven codec, its two inverse
  theorems, locality, and in `CodecRuntime` the loops of the codec over a buffer and a mapping, proved to compute
  the specification.
- `SchemaLayouts`, `SchemaCompiler`, `CompiledMessages`: definitions, the depth-first compiler, and what its
  output can be trusted for.
- `BorrowedDecoder`, `BorrowedSizes`, `BorrowedViews`, `DecodedMessage`, `VariantLookup`, `Dispatch`: the decoder
  that records where fields lie, its views, its variant tables and the choice of a message by its first bytes.
- `ShmRing`, `ShmRingTransport`: one direction of the shared-memory ring as interleaved steps, and the calls that
  are made of these steps.
- `MessageFrames`, `ContiguousBuilder`, `Segments`, `SegmentedBuilder`: the two message builders.
- `Framing`, `FrameDecoder`, `SendHistory`, `FrameChannel`: frames in a byte stream.
- `Bytes`, `Bits`, `Words`, `Checksums`, `Utf8`, `XxHash64`: byte arithmetic.
- `Drafts`, `Discovery`: drafting a protocol from samples.
- `SchemaImports`: resolving the imports of a schema.

Methods are proved against functions; the theorems are about the functions. Where the code does not do what one
might expect, an input shows it and the exact condition is proved: `CodecLimits.SelfCoverChangesFrame` with
`CodecExact.ReencodeExactly`, `SendHistory.TornFrameLosesTheNext` with `FrameChannel.DeliversExactly`,
`Dispatch.GatedConstantIsMissed` with `Dispatch.FoundExactly`.

Places where the implementations differ or where their documentation says more than the code does:

- A condition overrides a presence bit in `codec.py:123-130`; `decoded_message.cpp:587` requires both. The two
  decoders are modelled separately and not equated.
- `encodeFrame` cuts the length to the prefix width, so a payload of 256 to the width bytes or more, if the
  options admit it, does not read back (`Framing.FrameReadsBack`).
- A send that fails after writing part of its frame leaves the channel usable, and the next frame is written
  behind the torn bytes (`frame_channel.cpp:36-52`).
- The dispatch prefix takes in constants without looking at gates and alignment (`schema_compiler.cpp:889-894`).
- The dense variant table and the searches differ when a tag occurs twice (`VariantLookup.TableAgreesWithScan`).

## Model

| member | source | states |
|---|---|---|
| CodecExact.ReencodeExactly | packages/upr_python/src/universal_protocol_runtime/codec.py:194-242 | for any compiled layout and any frame that decodes, re-encoding gives back exactly the consumed bytes if and only if every alignment gap holds zeros and every checksum, at every nesting level, is the same computed with its own and all later checksum fields zeroed |
| CodecExact.SettledReencodeExactly | packages/upr_python/src/universal_protocol_runtime/codec.py:216-242 | where no checksum range covers its own or a later checksum field and no trailing bytes are skipped, zero gaps alone decide |
| CodecReencode.ReencodeLayout | packages/upr_python/src/universal_protocol_runtime/codec.py:296-368 | one direction on its own, through all nesting, gates, variants, collections and checksums |
| CodecExact.GivenBackForces | packages/upr_python/src/universal_protocol_runtime/codec.py:211-212 | the other direction: a frame given back had zero gaps and the encoder's checksums throughout |
| CodecLimits.SelfCoverChangesFrame | packages/upr_python/src/universal_protocol_runtime/codec.py:231-242 | an input on which it fails: a one-byte struct whose xor8 checksum covers itself accepts `[5]` and encodes it as another byte |
| CodecDecodeEncoded.DecodeEncoded | packages/upr_python/src/universal_protocol_runtime/codec.py:194-242 | for an admissible mapping (gates, tags and shared lengths consistent with what is written) and a sound dispatch prefix, decoding what was encoded succeeds on exactly those bytes and returns the mapping completed with lengths, constants, fills and checksums |
| CodecExact.EncodeCompleted | packages/upr_python/src/universal_protocol_runtime/codec.py:266-280 | the completed mapping encodes to the same bytes again, where no checksum covers itself or a later one |
| CodecLocality.LocalLayout | packages/upr_python/src/universal_protocol_runtime/codec.py:296-368 | a struct's value and size depend only on the bytes it consumes, not on where they lie or what follows |
| CodecLocality.SequenceOfRecords | packages/upr_python/src/universal_protocol_runtime/codec.py:487-504 | records joined end to end decode to exactly the list of records |
| CodecLocality.RecordsOfSequence | packages/upr_python/src/universal_protocol_runtime/codec.py:487-504 | conversely, what a sequence decodes to splits the bytes into those records |
| CodecLocality.LayoutTakesMinimum | packages/upr_python/src/universal_protocol_runtime/codec.py:307-316 | a successful decoding consumes at least the minimum size |
| CodecRuntime.DerivedFields | packages/upr_python/src/universal_protocol_runtime/codec.py:102-120 | the loop over the fields finds the derived lengths and payloads of the specification, or its error |
| CodecRuntime.EncodeLayoutInto | packages/upr_python/src/universal_protocol_runtime/codec.py:194-242 | appends to the output exactly the specified encoding, behind whatever was there, or stops with the specified error |
| CodecRuntime.EncodeField | packages/upr_python/src/universal_protocol_runtime/codec.py:150-191 | appends exactly the specified bytes of one field |
| CodecRuntime.PutChecksums | packages/upr_python/src/universal_protocol_runtime/codec.py:231-242 | patches each checksum over the bytes so far, in order, without touching what lay before the layout |
| CodecRuntime.DecodeLayout | packages/upr_python/src/universal_protocol_runtime/codec.py:296-368 | the decoding loops compute the specified mapping and size, or the specified error |
| CodecRuntime.DecodeField | packages/upr_python/src/universal_protocol_runtime/codec.py:381-467 | one field is entered into the mapping with the specified value and size |
| CodecRuntime.DecodeElements | packages/upr_python/src/universal_protocol_runtime/codec.py:419-440 | collections are decoded element by element, an empty element being an error |
| CodecRuntime.DecodeSequence | packages/upr_python/src/universal_protocol_runtime/codec.py:487-504 | the record loop returns the specified list |
| CodecRuntime.ByteBuffer.Assign | packages/upr_typescript/src/codec.ts:102-115 | patching a buffer replaces exactly the given range |
| SchemaCompiler.Compile | packages/upr_compiler/src/compiler/schema_compiler.cpp:387-432 | a protocol compiles only if no struct contains itself, recursion is reported only when one does, and sane definitions yield metadata the codec and the decoder may trust |
| SchemaCompiler.ProtocolCompiler.CompileStruct | packages/upr_compiler/src/compiler/schema_compiler.cpp:473-498 | the depth-first walk leaves finished structs as they were; a struct met again on the way closes a cycle of definitions |
| SchemaCompiler.ProtocolCompiler.CompileLayout | packages/upr_compiler/src/compiler/schema_compiler.cpp:550-1055 | the compiled layout carries every attribute, reference, gate, case and checksum of its definition, its minimum size, fixed-size flag and dispatch prefix being the ones its fields determine |
| SchemaCompiler.ProtocolCompiler.CompileVariant | packages/upr_compiler/src/compiler/schema_compiler.cpp:760-820 | cases are sorted by tag and keep the smallest minimum size; the fixed-size flag says whether all are equally large |
| SchemaCompiler.FinishedIsAcyclic | packages/upr_compiler/src/compiler/schema_compiler.cpp:398-405 | once every struct is finished no chain of definitions leads back to its start |
| SchemaLayouts.ResolveChecksums | packages/upr_compiler/src/compiler/schema_compiler.cpp:500-545 | every checksum the definitions ask for is there, in order, with the anchors they name |
| SchemaLayouts.VariantSound | packages/upr_compiler/src/compiler/schema_compiler.cpp:802-820 | a compiled variant has exactly the cases of its definition, sorted, each struct at least as large as the recorded minimum |
| CompiledMessages.CompileSized | packages/upr_compiler/src/compiler/schema_compiler.cpp:387-432 | of what the compiler returns for sane definitions: whatever frame is accepted as a message takes at least its minimum size, and exactly that when the size is flagged as fixed |
| CompiledMessages.CompiledMessageSize | packages/upr_runtime/src/decoder/decoded_message.cpp:560-583 | the same for one message and one frame |
| CompiledMessages.CompiledStructSize | packages/upr_compiler/include/universal_protocol_runtime/compiler/compiled_protocol.hpp:174-188 | the same for compiled structs, whose flags the jump to an element relies on |
| CompiledMessages.CompiledIndexAgrees | packages/upr_runtime/src/decoder/protocol_decoder.cpp:10-56 | for compiled messages whose leading constants are ungated and packed the index finds a message exactly when some message decodes the frame |
| CompiledMessages.NewBuilders | packages/upr_runtime/src/encoder/message_encoder.cpp:919-935 | both builders can be set up, in a valid initial state, for any compiled message |
| BorrowedSizes.AssignTakesMinimum | packages/upr_runtime/src/decoder/decoded_message.cpp:585-719 | an accepted frame takes at least the minimum size, over nested structs, collections, variants, gates and alignment |
| BorrowedSizes.FixedLayout | packages/upr_runtime/src/decoder/decoded_message.cpp:585-719 | and exactly the minimum size when the layout is flagged as fixed |
| DecodedMessage.Message.AssignFromLayout | packages/upr_runtime/src/decoder/decoded_message.cpp:560-801 | the field loop records presence, place and raw value of every field as specified, or fails with the specified status |
| DecodedMessage.SizeOfCollection | packages/upr_runtime/src/decoder/decoded_message.cpp:620-661 | fixed-size elements by multiplication, others by walking them |
| DecodedMessage.At | packages/upr_runtime/src/decoder/decoded_message.cpp:516-556 | the element view by jump or by walk is the specified element |
| BorrowedViews.StructViewSucceeds | packages/upr_runtime/src/decoder/decoded_message.cpp:322-344 | the struct view of a present field succeeds and takes exactly the field's bytes, if no checksum of a struct runs to the end of its span |
| BorrowedViews.VariantViewSucceeds | packages/upr_runtime/src/decoder/decoded_message.cpp:375-404 | so does the variant view, as the case its tag selects |
| BorrowedViews.LocalAssign | packages/upr_runtime/src/decoder/decoded_message.cpp:560-801 | a struct is assigned the same from any frame that starts with the bytes it takes, under the same condition |
| BorrowedViews.VariableElementsTile | packages/upr_runtime/src/decoder/decoded_message.cpp:535-556 | for an accepted collection of variable-size elements every index below the count has a view, and the views tile the collection in order, if no checksum of a struct runs to the end of its span |
| BorrowedViews.JumpIsWalk | packages/upr_runtime/src/decoder/decoded_message.cpp:524-534 | for fixed-size elements multiplying reaches the slice a walk would reach |
| BorrowedViews.FixedElementsTile | packages/upr_runtime/src/decoder/decoded_message.cpp:524-534 | and those slices tile the collection |
| VariantLookup.BuildTable | packages/upr_compiler/src/compiler/schema_compiler.cpp:802-820 | the dense table holds, for every tag in its span, the last case with that tag |
| VariantLookup.FindVariantCase | packages/upr_runtime/src/decoder/decoded_message.cpp:109-133 | finds a case with the tag exactly when there is one: the last with a table, the first without |
| VariantLookup.TableAgreesWithScan | packages/upr_runtime/src/decoder/decoded_message.cpp:109-133 | table and scan agree on every tag if and only if tags are distinct |
| Dispatch.DispatchIndex.constructor | packages/upr_compiler/src/compiler/schema_compiler.cpp:153-172 | every message is filed under the first byte of its prefix, or as a fallback if it has none |
| Dispatch.TryCandidates | packages/upr_runtime/src/decoder/protocol_decoder.cpp:19-43 | succeeds exactly when some candidate matches and decodes, and reports whether any was tried |
| Dispatch.DecodeAny | packages/upr_runtime/src/decoder/protocol_decoder.cpp:45-56 | a frame is decoded exactly when some indexed message takes it |
| Dispatch.IndexAgreesWithScan | packages/upr_compiler/src/compiler/schema_compiler.cpp:889-894 | with sound dispatch prefixes the index loses nothing a full scan would find |
| Dispatch.FoundExactly | packages/upr_compiler/src/compiler/schema_compiler.cpp:889-894 | for any compiled message: a frame it accepts is found under its prefix if and only if every leading constant that is absent or displaced happens to be spelled out where the prefix expects it |
| Dispatch.GatedConstantIsMissed | packages/upr_compiler/src/compiler/schema_compiler.cpp:889-894 | an input on which the index misses a message: a gated constant taken into the prefix |
| ShmRing.RunKeeps | packages/upr_adapters/src/adapters/local_shm_ring_transport.cpp:257-311 | the ring invariant holds after every sequence of writer and reader steps |
| ShmRing.DeliveredInOrder | packages/upr_adapters/src/adapters/local_shm_ring_transport.cpp:257-311 | under every interleaving the frames consumed are the first of those written, in order, once, byte for byte, and at most slot_count - 1 are in flight |
| ShmRing.LeaseIsStable | packages/upr_adapters/src/adapters/local_shm_ring_transport.cpp:359-400 | a slot under a zero-copy lease is not overwritten by any steps of the writer until it is released |
| ShmRing.PartialReadIsStable | packages/upr_adapters/src/adapters/local_shm_ring_transport.cpp:257-290 | nor is a slot that has been read in part |
| ShmRing.NoLostWakeup | packages/upr_adapters/src/adapters/local_shm_ring_transport.cpp:63-86 | while data (or space) is there, the eventfd of whoever polls for it is signalled or about to be |
| ShmRing.NeverStuck | packages/upr_adapters/src/adapters/local_shm_ring_transport.cpp:328-346 | in every reachable state a side is held up only while it is idle or polls an eventfd that is not signalled |
| ShmRing.SignalCanBeDrained | packages/upr_adapters/src/adapters/local_shm_ring_transport.cpp:63-72 | the promise holds for a side that polls, not for the signal alone: a reachable state has a frame in flight, both sides idle and the readable signal drained |
| ShmRingTransport.RingDirection.Write | packages/upr_adapters/src/adapters/local_shm_ring_transport.cpp:292-311 | the write call is a run of writer steps that puts one frame in flight, or refuses it without effect |
| ShmRingTransport.RingDirection.Read | packages/upr_adapters/src/adapters/local_shm_ring_transport.cpp:257-290 | the read call is a run of reader steps that hands out the next bytes of the frame at the head |
| ShmRingTransport.RingDirection.TryAcquire | packages/upr_adapters/src/adapters/local_shm_ring_transport.cpp:359-382 | the lease is the frame at the head |
| ShmRingTransport.RingDirection.ReleaseLease | packages/upr_adapters/src/adapters/local_shm_ring_transport.cpp:384-400 | releasing consumes exactly that frame |
| ContiguousBuilder.MessageBuilder.Set | packages/upr_runtime/src/encoder/message_encoder.cpp:247-382 | a setter fills in the skipped fields and appends its bytes as the list of calls spells out, or fails for good |
| ContiguousBuilder.MessageBuilder.Finalize | packages/upr_runtime/src/encoder/message_encoder.cpp:384-468 | the view is the finished frame the calls spell out, checksums included |
| SegmentedBuilder.SegmentedMessageBuilder.Set | packages/upr_runtime/src/encoder/message_encoder.cpp:626-784 | copying and attaching setters leave segments whose content is what the list of calls spells out |
| SegmentedBuilder.SegmentedMessageBuilder.Finalize | packages/upr_runtime/src/encoder/message_encoder.cpp:786-884 | the segments hold the same finished frame |
| SegmentedBuilder.SegmentedMessageBuilder.CopyTo | packages/upr_runtime/src/encoder/message_encoder.cpp:886-905 | copies the segments into one buffer, byte for byte the finished frame |
| SegmentedBuilder.SegmentedChecksum | packages/upr_runtime/src/encoder/message_encoder.cpp:62-119 | a checksum over scattered chunks is the checksum of the chunks joined |
| SegmentedBuilder.SameFrame | packages/upr_runtime/src/encoder/message_encoder.cpp:886-905 | after the same calls on both builders the two finished frames are equal |
| Segments.VisitRange | packages/upr_runtime/src/encoder/message_encoder.cpp:802-830 | the chunks visited for a range join to exactly that range of the frame |
| Segments.PatchContent | packages/upr_runtime/src/encoder/message_encoder.cpp:832-884 | overwriting a scratch segment patches exactly its field in the frame |
| Framing.FrameReadsBack | packages/upr_typescript/src/framing.ts:80-97 | an encoded frame reads back, whatever follows, if and only if its length fits into the prefix |
| Framing.ParseInParts | packages/upr_python/src/universal_protocol_runtime/framing.py:147-171 | parsing in two parts gives the frames of the whole |
| Framing.ParsesTo | packages/upr_python/src/universal_protocol_runtime/framing.py:101-119 | a stream parses to given frames if and only if it starts with their encoding and holds no frame behind it |
| Framing.ParsePartial | packages/upr_python/src/universal_protocol_runtime/framing.py:101-119 | any part of a stream of encoded frames parses to the first of them |
| FrameDecoder.GrowingDecoder.Feed | packages/upr_typescript/src/framing.ts:187-207 | over all calls the frames returned are those of one pass over everything received, and what is kept is the incomplete rest, through moving, doubling and the fast path; a refused frame is refused in one pass too |
| FrameDecoder.GrowingDecoder.Append | packages/upr_typescript/src/framing.ts:150-170 | moving or growing the buffer keeps the unread bytes |
| FrameDecoder.CuttingDecoder.Feed | packages/upr_python/src/universal_protocol_runtime/framing.py:147-171 | the same for the decoder that cuts its buffer |
| FrameDecoder.DrainAvailable | packages/upr_typescript/src/framing.ts:172-186 | drains exactly the complete frames |
| FrameDecoder.IterFrames | packages/upr_python/src/universal_protocol_runtime/framing.py:101-119 | iterating yields exactly the frames of the stream |
| FrameChannel.WriteSpansFully | packages/upr_adapters/src/adapters/frame_channel.cpp:164-216 | whatever the transport takes at a time, the spans are written in order and in full, or a front part of them on failure; a failure that left nothing out had only an empty span to go |
| FrameChannel.Channel.SendFrame | packages/upr_adapters/src/adapters/frame_channel.cpp:36-52 | every attempt is recorded with the bytes it wrote: all of the frame if it returned ok, otherwise a front part; an oversized frame writes nothing |
| FrameChannel.Channel.SendFrames | packages/upr_adapters/src/adapters/frame_channel.cpp:54-62 | if it returns ok the frames given are accepted, in order, behind those before |
| FrameChannel.Channel.TryAcquireFrame | packages/upr_adapters/src/adapters/frame_channel.cpp:87-125 | the lease is the payload at the front of the stream; without one no complete frame is there, and only an oversized prefix is refused |
| FrameChannel.Channel.ReleaseFrame | packages/upr_adapters/src/adapters/frame_channel.cpp:127-137 | delivers exactly that frame and goes on behind it |
| FrameChannel.Channel.Compact | packages/upr_adapters/src/adapters/frame_channel.cpp:274-288 | compaction keeps the unread bytes |
| FrameChannel.Channel.Fill | packages/upr_adapters/src/adapters/frame_channel.cpp:236-272 | no byte is lost between transport and buffer |
| FrameChannel.DeliversWhatWasSent | packages/upr_adapters/src/adapters/frame_channel.cpp:36-137 | for all histories of sends in which nothing is written behind a torn frame, and any part of the bytes arrived: the frames delivered are the first of those written in full, which but for empty frames are those whose sends returned ok; the maximum frame size must fit the prefix |
| FrameChannel.DeliversAll | packages/upr_adapters/src/adapters/frame_channel.cpp:36-137 | and all of them once everything has arrived and no frame is ready |
| FrameChannel.DeliversExactly | packages/upr_adapters/src/adapters/frame_channel.cpp:36-137 | for all histories without that condition: the frames written in full are delivered if and only if the bytes sent start with their encoding and hold no frame behind it |
| SendHistory.WrittenAreAccepted | packages/upr_adapters/src/adapters/frame_channel.cpp:164-216 | a send that failed although everything was written sent an empty frame |
| SendHistory.TornIsFatal | packages/upr_adapters/src/adapters/frame_channel.cpp:36-52 | frames written behind a torn one are not delivered as sent unless their bytes begin with those of the torn frame |
| SendHistory.TornFrameLosesTheNext | packages/upr_adapters/src/adapters/frame_channel.cpp:36-52 | an input on which an accepted frame is lost: `[7]` torn after one byte, then `[8]` sent |
| Checksums.MakeCrcTable | packages/upr_runtime/include/universal_protocol_runtime/decoder/direct_decode_support.hpp:85-102 | every table entry is eight bit-by-bit steps of its index |
| Checksums.ComputeCrc | packages/upr_runtime/include/universal_protocol_runtime/decoder/direct_decode_support.hpp:387-412 | the table-driven CRC equals bit-by-bit reflected division for every input and width |
| Checksums.BuiltinsDetectBursts | packages/upr_runtime/include/universal_protocol_runtime/decoder/direct_decode_support.hpp:387-412 | a change confined to as many consecutive bytes as the CRC is wide changes the CRC |
| Checksums.ComputeChecksum | packages/upr_python/src/universal_protocol_runtime/checksums.py:93-103 | each built-in name computes its checksum; unknown names have none |
| Checksums.PlainChecksumsDetectOneByte | packages/upr_python/src/universal_protocol_runtime/checksums.py:47-57 | changing one byte changes xor8 and sum16 |
| Utf8.IsValidUtf8 | packages/upr_runtime/include/universal_protocol_runtime/decoder/direct_decode_support.hpp:329-376 | accepts exactly the byte strings that encode some sequence of Unicode scalar values (sections 3 and 4 of RFC 3629) |
| Utf8.DecodesExactlyEncodings | packages/upr_runtime/include/universal_protocol_runtime/decoder/direct_decode_support.hpp:329-376 | decoding succeeds exactly on encodings |
| Utf8.EncodingIsUnique | packages/upr_runtime/include/universal_protocol_runtime/decoder/direct_decode_support.hpp:329-376 | and the sequence encoded is unique |
| XxHash64.XxHash64State.Update | packages/utils/include/utils/xxhash64.hpp:40-74 | however the input is cut, the state is the one of the whole input so far and the buffer holds exactly its unconsumed tail |
| XxHash64.XxHash64State.Finish | packages/utils/include/utils/xxhash64.hpp:122-162 | the digest is the one-shot digest of the xxHash specification (section "XXH64 Algorithm Description", steps 1 to 6) of all input so far, for inputs below two to the 64 bytes |
| XxHash64.StripesInParts | packages/utils/include/utils/xxhash64.hpp:205-232 | stripes of a joined input are those of its first part, then those of the first part's tail with the second part |
| XxHash64.TailEndsTheInput | packages/utils/include/utils/xxhash64.hpp:40-74 | the tail is the end of the input behind whole stripes |
| Words.RotateMultiplies | packages/utils/include/utils/xxhash64.hpp:197-203 | rotating multiplies by a power of two and brings the overflow in at the bottom |
| Words.SignExtendMeaning | packages/upr_runtime/include/universal_protocol_runtime/decoder/direct_decode_support.hpp:188-202 | sign extension yields the number of the given width that agrees with the value modulo two to that width; widths of 0 or above 64 have none |
| Discovery.CommonPrefixLength | packages/upr_discovery/src/discovery/protocol_discovery.cpp:75-86 | the longest common prefix up to the cap |
| Discovery.InferLengthField | packages/upr_discovery/src/discovery/protocol_discovery.cpp:108-154 | the first candidate, in the order of the search, whose number explains the length of every frame, and none exactly when there is none |
| Discovery.ReadLengthValue | packages/upr_discovery/src/discovery/protocol_discovery.cpp:88-106 | the byte loops read the number in either byte order |
| Discovery.AppendFixedRegion | packages/upr_discovery/src/discovery/protocol_discovery.cpp:178-222 | the fields cover the region: a constant wherever the frames agree, a field over every longest run in which they differ |
| Discovery.DiscoverMessage | packages/upr_discovery/src/discovery/protocol_discovery.cpp:252-338 | the draft describes its frames: prefix, region, length field if their sizes differ and one is found, otherwise bytes left open |
| Discovery.ClusterFrames | packages/upr_discovery/src/discovery/protocol_discovery.cpp:340-366 | one cluster for each first byte, in the order of first appearance, holding exactly the frames that start with it |
| Discovery.Discover | packages/upr_discovery/src/discovery/protocol_discovery.cpp:370-418 | if a report is given, every non-empty sample is in a cluster whose compiled draft accepts it, reading all of it unless the draft leaves bytes open |
| Drafts.SamplesAreAccepted | packages/upr_discovery/src/discovery/protocol_discovery.cpp:252-338 | any sample is accepted by the decoder under the compiled draft of its cluster |
| SchemaImports.Resolve | packages/upr_authoring/src/pdl/yaml_loader.cpp:1662-1699 | succeeds if and only if no file reachable from the root imports itself, each is readable, parses and has resolvable imports, and the root has a name and a message; then the files merged are exactly the reachable ones, each once, imports before importers |
| SchemaImports.SchemaImportResolver.LoadRecursive | packages/upr_authoring/src/pdl/yaml_loader.cpp:1707-1767 | an error names what is in the way; otherwise the file is finished behind the files it imports and nothing finished before is disturbed |
| SchemaImports.OrderIsAcyclic | packages/upr_authoring/src/pdl/yaml_loader.cpp:1707-1767 | an order with imports first exists only without cycles |
| SchemaImports.OrderHoldsReachable | packages/upr_authoring/src/pdl/yaml_loader.cpp:1707-1767 | an order that holds the root holds everything reachable from it |

## Left out

- BorrowedDecoder.FindCase: takes the first case with a tag, as the searches do; with a dense table the last one counts when a tag occurs twice, so the decoder's theorems speak of protocols with distinct tags, on which `VariantLookup.TableAgreesWithScan` shows the look-ups agree.
- CodecDecodeEncoded.DecodeEncoded: asks that no checksum range covers its own or a later checksum field and that its anchors are in order; of other layouts it does not say when encoding is followed by a successful decoding.
- SendHistory.TornIsFatal: speaks of one torn frame between well-sent parts; for several torn frames only the exact byte-level condition of `FrameChannel.DeliversExactly` is proved.
- Drafts.SamplesAreAccepted: length fields are at most eight bytes wide, since reading a wider one shifts by more than the width of the accumulator.
- XxHash64.XxHash64State.Finish: inputs of two to the 64 bytes and more, where the length counter wraps around, are not covered.
- VariantLookup.BuildTable: the span of tags 0 and two to the 64 minus one together wraps around in the original; numbers are unbounded here.
- ShmRing.DeliveredInOrder: steps interleave in one order seen by both sides; the acquire and release orderings of the original are taken to give that.
- ShmRing.NoLostWakeup: an eventfd is a counter; creating, mapping, closing and moving transports are not modelled.
- SegmentedBuilder.SameFrame: borrowed segments are byte values, so a caller that changes attached memory before copying is not modelled.
- FrameChannel.DeliversWhatWasSent: transports that preserve frame boundaries bypass framing and are not modelled; a transport reports readiness without progress only finitely often.
- FrameDecoder.GrowingDecoder.Feed: what a decoder does after it has refused a frame.
- SchemaCompiler.Compile: the compiler does not look at a reserved mark outside byte fields nor at a constant on a floating-point field; such definitions are not sane and nothing is promised of them. Sizes are unbounded; a minimum size that overflows a machine word is modelled only where the original checks for it.
- Floating-point values are raw bits; conversion, NaN payloads and negative zero are not modelled, and neither is a constant on a floating-point field.
- Numeric strings as numbers, dataclass instances as mappings and enum labels as values of the Python encoder.
- Validation rules, bit fields, field selection, error texts and name maps.
- JavaScript number precision above two to the 53.
- Socket, descriptor and io_uring transports, timeouts, and operating-system set-up of shared memory.
- Vectorised byte operations, the `.upr` and YAML parsers, path resolution, code generators, language server, benchmarks and the session handshake.
