# Verified model of the DTL container toolkit

DTL is a binary container for device telemetry. A container holds a header, a
section table, compressed section blobs and an optional MAC; each decompressed
section is a stream of tag/length/value items, and each item is one of eleven
record types. The toolkit has an incremental writer, seven section codecs, a
decoder that walks a container record by record, tools that walk a container and
write another one, and a small filter language.

This project models that toolkit in Dafny and proves that its parts fit together:
the writer inverts the decode pipeline, the codecs lose nothing, the rewriting
tools keep exactly the records they mean to keep, the query parser implements its
grammar, and the JSON text form can be read back. `dafny verify dfyconfig.toml`
checks everything.

## How the model is organised

| file | part of the toolkit |
|---|---|
| Core, Buffer | widths, error codes, little-endian fields, the read cursor |
| Rle, Leb128, Varint, Delta, Base32, Dict, Lz77, Codecs | the codecs, their dispatch, and the writer's retry loop |
| Records, Tlv | payload encoders and parsers, item framing |
| Crc, Container, Acceptance | header checksum, container parse and layout, which bytes are accepted |
| Walk | the decode driver |
| WriterSpec, WriterErrors, Pipeline, Writer | the writer as a state machine, which calls fail, the top theorem, the writer object |
| Vector, Replay, Tools, Success | growing arrays, the shared absorb-and-replay loop, repack, select and sign, and when they succeed |
| Diff, Dedup | record comparison and deduplication |
| ByTag, SplitMerge, SplitRoundTrip | split and merge, and merging what was split |
| Lex, QueryGrammar, QueryParser, QueryText, Eval, QueryExport | the filter language |
| Heavy | containers with a section too large to be walked |
| Timeline | sessions and anomalies |
| Arena | the bump allocator |
| JsonText, Json, JsonGrammar, JsonRecords, JsonTool, JsonParser, JsonExport | JSON export and import |
| KnownAnswers | literal blobs, containers and queries with their results |

Most parts come twice. A specification says on values what the code computes
(`Lz77.Encode`, `WriterSpec.Step`, `Walk.Walk`), and the properties are proved about
it. The code's own loops and objects (`Lz77.EncodeInto`, `Writer.Encoder`,
`Walk.WalkMemory`) are methods and classes proved to compute exactly that, errors
included. What a specification accepts, and what it means, is stated again without its
own terms: containers and payloads by byte position (`Acceptance`, `RecordLayout`),
query and JSON texts by the characters of a grammar (`QueryText`, `JsonGrammar`),
anomalies on the record stream (`Timeline.AnomaliesMean`), and wire formats by literal
bytes (`KnownCodecs`, `KnownContainers`).

Conventions:

- `Result` carries the error codes of `src/core/err.h`. `OutOfBounds` is an addition:
  it marks runs on which the C code would touch memory outside its buffer.
- Allocation may fail at any request. A method that hit such a failure says so in a
  ghost result (`lapsed`) and promises an error; otherwise it computes its
  specification. The writer's state machine takes the failure of a call as an input.
- The MAC is a parameter: any function of key and message with 32-byte results.
- Sensor samples are 32-bit patterns; comparison treats them as IEEE single floats.
- A record's *wire form* (`Records.Canon`) clears the redaction flags, which are not
  encoded, and ends CONFIG strings at their first NUL, as `strlen` does.
- `Replay.Carries(bytes, items)` is the common postcondition of the rewriting tools:
  walking `bytes` reports no fault and returns exactly `items` in order, in their
  wire form, with type and codec; output sections correspond one to one, in order,
  to the source sections that have an item; and there is no other section.

## Where the code and its documentation differ

The model follows the code, and states how far the documented behaviour holds.

- `src/codec/lz77.c:128` accepts an offset one past the bytes written, which
  `src/codec/lz77.h:18-20` excludes. `Lz77.GuardDiffers` says exactly when the two
  decoders differ, `Lz77.GuardExample` is a stream; encoder output is not affected. The repository's own
  check (`src/codec/_smoke.c:223-226`) expects the documented error on such a stream
  (`KnownCodecs.LzErrors`).
- `src/report/merge.c:50-54` writes through a cached base that may have been
  released by the growth above it. `SplitMerge.HazardIff` and
  `SplitMerge.MergeIffNoHazard` say exactly when; `src/report/split.c:28-39` has the
  intended step. Merging split files fails to give the whole exactly when one has more
  than sixteen records (`SplitRoundTrip.SplitThenMergeAsWritten`, which also accounts for
  files too large to be walked).
- `src/report/timeline.c:37-44` assigns one histogram entry of a new session; the
  others keep what the memory held. `Timeline.HistogramIff` says exactly when the
  histogram is right; `Timeline.HistogramExample` is a session on which it is not.
- `src/report/walk.h:22-24` says that a framing or payload error is reported and ends
  the section. `src/report/walk.c:110-115` goes on after a payload error (and does not
  call it fatal, where `src/report/walk.h:40` may be read to), and
  `src/report/walk.c:95-101` is silent about a stream that stops inside an item.
  `Walk.DocumentedWalkIff` says exactly when the callbacks are the documented ones,
  `Walk.FragmentExample` and `Walk.PayloadErrorExample` give containers on which they
  are not, and `Pipeline.WriterConforms` says that the writer's output is none of them.
- `src/report/jimport.c:483-512` and `src/report/jimport.c:606-639` size the sample and
  the pair array by the low byte of the count. `JsonRecords.SensorImportIff` and
  `JsonRecords.ConfigImportIff` say exactly when the array suffices, with
  `JsonRecords.ShortExamples`.
- `src/report/dedup.h:11-13` and `src/report/diff.h:42-45` promise field-for-field
  identity, redaction aside. The comparator (`src/report/diff.c:73-192`) looks at no
  KEYREF label when redaction is ignored, at LOG and CONFIG strings only up to a NUL,
  takes zeros of different sign for equal and a NaN for different from itself, and
  compares a cleared DIAG blob. `Diff.EqualIff` gives the exact condition,
  `Diff.EqualExamples` the witnesses; `Dedup.DeduplicateIff` and
  `Dedup.CopySurvivesIff` say what that means for deduplication, `Diff.NoDiffsMean`
  for the file comparison.
- `src/writer/writer.h:12` and `src/writer/writer.h:21-23` call the encoder the exact
  inverse of decoding, `src/report/split.h:10-16` and `src/report/jimport.h:11-21` the
  inverses of merge and of export. The writer accepts sections of up to 64 MiB
  (`src/writer/writer.c:285-300`), the walk abandons those over 16 MiB
  (`src/report/walk.c:76-79`), and split, merge and import put records of several
  sections into one. `Pipeline.WriterThenWalkIff`, `Replay.ReplayFaithfulIff`,
  `ByTag.MergedFaithful`, `ByTag.SplitFaithful`, `JsonTool.ContainerRoundTrip`,
  `JsonTool.WalkExportImportWalk` and `SplitRoundTrip.SplitThenMerge` say exactly when
  nothing is lost; `Heavy.HeavyRun`, `Heavy.HeavySplit` and `Heavy.HeavyImport` are
  cases in which it is.
- `src/query/eval.c:140-141` calls the field name of a CONFIG record a key, but a bare
  name is first taken for `type` or a record type (`src/query/eval.c:171-178`).
  `Eval.ConfigKeyIff` says exactly when the key is read, `Eval.ConfigKeyExample` is a
  key that is not.
- `src/report/walk.h:17-20` and the absorbing walk of `src/report/walk.h:68-74` promise
  that retained records stay valid. The pools and rings of `src/records/event.c`,
  `keyref.c`, `sensor.c`, `diag.c` and `config.c` free or reuse payload memory during a
  walk. Here payloads are held by value, so the replay, deduplication, comparison, split
  and merge results are about records whose payloads are still what was parsed.

## Model

| member | source | states |
|---|---|---|
| `Pipeline.WriterThenWalk` | src/writer/writer.c:190-439 | For every sequence of writer calls, with any sections, codecs, raw items and trailer, if finishing succeeds then walking the bytes makes exactly the callbacks that the calls promised: same records and payload faults, order, section types, codecs, section and record indices. The only hypothesis is that each section fits the walker's decode limit. |
| `Pipeline.WriterThenWalkIff` | src/report/walk.c:76-79 | The same in both directions: the walk is what the calls promised exactly when every section fits the decode limit, and exactly otherwise it abandons a section. |
| `Pipeline.WriterConforms` | src/report/walk.c:91-115 | On what a run of well-formed records writes, the walk and the walk its header documents make the same callbacks. |
| `Pipeline.RecordsSurvive` | src/report/walk.c:46-137 | A run that adds only well-formed records is walked without a fault and returns all of them in order, numbered from 0; each is returned unchanged exactly when it has a wire form (no redaction flag, NUL-free CONFIG strings). |
| `Pipeline.RecordsReturn` | src/writer/writer.c:190-247 | What a live run promises a later walk is, record by record, what was passed to add_record. |
| `Pipeline.ExpectedIsHistory` | src/writer/writer.c:190-349 | Along every run that has not failed, the promises collected call by call equal those collected section by section. |
| `WriterSpec.ErrorLatches` | src/writer/writer.h:24-26 | Once a call ends in an error, no later calls change the state, and finish returns that error. |
| `WriterErrors.CallMeans` | src/writer/writer.c:190-349 | After any history of successful calls, whether the next call fails and with which error, told by the calls alone: section open or not, 64 sections, payloads over 65535 bytes, CONFIG strings over 255, batches over 16383 points, empty sections and sections over 64 MiB, unknown codecs, streams a codec refuses. |
| `WriterErrors.RunMeans` | src/writer/writer.h:24-26 | Over every run, the writer is live exactly when no call so far fails, and otherwise holds exactly the error of the first that does. |
| `WriterErrors.FinishMeans` | src/writer/writer.c:376-439 | What finishing a run returns: that first error, INVAL for a section left open, RANGE for over 4 GiB of blobs, and otherwise a container. |
| `WriterErrors.BatchMeans` | src/writer/writer.c:247-272 | The payload of a batch is its points as little-endian words, in order. |
| `WriterSpec.RunAgrees` | src/writer/writer.c:190-349 | Invariant of every run: each closed section's blob decodes to the framed items added between its begin and end, and the open buffer holds the framed items added so far. |
| `WriterSpec.EndPacks` | src/writer/writer.c:285-349 | Closing a section stores a blob that the section's codec decodes back to the section's stream. |
| `Writer.Encoder.Reserve` | src/writer/writer.c:15-48 | Growth by doubling from 64 keeps the accumulated bytes and makes the asked-for room, or latches RANGE or OOM. |
| `Writer.Encoder.PutPayload` | src/writer/writer.c:85-171 | The buffer grows by exactly the payload of the record, or the payload's own error is latched. |
| `Writer.Encoder.BeginSection` | src/writer/writer.c:190-206 | Refines the state machine's begin step and returns the section's index or -1. |
| `Writer.Encoder.Emit` | src/writer/writer.c:210-245 | Writing a placeholder length and patching it afterwards leaves exactly the framed item; refines the add step, error order included. |
| `Writer.Encoder.AddOne` | src/writer/writer.c:274-277 | Refines the add-record step. |
| `Writer.Encoder.AddRawTlv` | src/writer/writer.c:279-283 | Refines the add-raw step. |
| `Writer.Encoder.AddU32Batch` | src/writer/writer.c:247-272 | Refines the batch step: its size checks come before the open-section check, and an empty batch is OOM. |
| `Writer.Encoder.EndSection` | src/writer/writer.c:285-349 | Refines the end step: size limits, unknown codec, codec refusal, and the packed section. |
| `Writer.Encoder.SetHmac` | src/writer/writer.c:351-359 | Refines the set-key step. |
| `Writer.Encoder.FinishLog` | src/writer/writer.c:361-439 | Returns the latched error or the laid-out container with its MAC; a failure of the call itself is latched too. |
| `Writer.LayTable` | src/writer/writer.c:361-439 | The table written in place has cumulative blob offsets. |
| `Writer.LayOut` | src/writer/writer.c:361-439 | Header with its CRC, table and blobs, written in place, are the container layout. |
| `Container.LayoutBack` | src/format/container.c:106-177 | Parsing a laid-out container returns exactly its sections, flags and trailer, with and without a MAC. |
| `Container.ReadTable` | src/format/container.c:14-55 | The table loop reads exactly the specified entries and leaves the cursor behind them, or returns the first entry's error. |
| `Container.SumComp` | src/format/container.c:61-80 | The compressed total is exact and its overflow guard can never fire. |
| `Container.ResolveBlobs` | src/format/container.c:61-104 | Each section's blob is the table's slice of the blob region; range errors in table order. |
| `Container.ParseContainer` | src/format/container.c:106-177 | The cursor-driven parser computes the specified parse, errors included. |
| `Acceptance.ParseMeans` | src/format/container.c:106-177 | On every byte string, by byte positions alone: what the parser returns, and which of BADMAGIC, BADVERSION, BADHEADER, BADRECORD, RANGE and TRUNCATED it gives otherwise. |
| `Acceptance.ParseIff` | src/format/container.h:12-87 | Parsing succeeds exactly on the byte strings laid out as documented (magic, version, flags, header checksum, zero reserved bytes, sections and their sum inside the region, 1 byte to 64 MiB raw, room for the trailer), and returns each section where its table row puts it. |
| `Acceptance.HeaderProtected` | src/format/container.c:122-146 | Changing any one byte of a container's header makes the parser refuse it, with the error that belongs to that byte. |
| `Crc.ComputeCrc32` | src/format/crc.c:10-36 | Table construction followed by the table-driven loop equals the bit-at-a-time CRC with polynomial 0xEDB88320 on every byte string (section 8 of RFC 1952). |
| `Crc.StepsLinear` | src/format/crc.c:10-22 | The eight-step shift is linear over xor. |
| `Crc.ByteStep` | src/format/crc.c:24-36 | One table look-up does what eight bit steps do. |
| `Crc.OneByteDetected` | src/format/crc.c:24-36 | The checksums of two byte strings that differ in one byte differ. |
| `Crc.KnownValues` | src/format/crc.c:10-36 | Known values that show the initial register, the reflected polynomial and the final complement of RFC 1952. |
| `Tlv.StreamBack` | src/format/tlv.c:3-28 | Reading the framed stream of any well-formed records gives them back in order. |
| `Tlv.Next` | src/format/tlv.c:3-28 | One item off the cursor, or TRUNCATED. |
| `Tlv.CountIsItems` | src/format/tlv.c:30-47 | The counting pre-pass agrees with the number of items a walk visits, on every stream. |
| `Tlv.CountItems` | src/format/tlv.c:30-47 | Counts whole items on a copied cursor and reports whether the stream ends on an item boundary. |
| `Tlv.ParseConfigInto` | src/records/config.c:67-105 | The pair loop returns the specified pairs and refuses trailing bytes. |
| `Tlv.ParseRecord` | src/records/registry.c:8-57 | Dispatch on the tag, with the reserved-interface rule for NET, computes the specified parse. |
| `Records.PayloadRoundTrip` | src/writer/writer.c:85-171 | For all eleven types, parsing the encoded payload returns the record in its wire form. |
| `Records.CanonSame` | src/records/config.c:42-64 | A record equals its wire form exactly when it is not marked redacted and its CONFIG strings are NUL-free. |
| `Records.ParsedIsWellFormed` | src/records/registry.c:8-57 | Whatever any parser accepts has the parsed tag, is well-formed and can be written again in no more bytes. |
| `RecordLayout.ParseMeans` | src/records/registry.c:8-57 | On every tag and payload, by byte positions alone: the record with each of its fields (lengths, severity up to 7, interface below 250 included), or TRUNCATED or BADRECORD, whichever it is. |
| `RecordLayout.PrefixRejected` | src/records/_smoke.c:569-616 | No payload of any type, cut anywhere before its end, is accepted. |
| `Walk.WalkMemory` | src/report/walk.c:46-137 | The section and item loops make exactly the specified callbacks. |
| `Walk.WalkOrdered` | src/report/walk.c:64-134 | Every successful walk, on any bytes, numbers records 0, 1, 2, ... and never goes back a section; one section index has one type and codec. |
| `Walk.DocumentedWalkIff` | src/report/walk.c:91-115 | On every input, the walk makes exactly the callbacks its header documents if and only if in every section it opens no item follows a payload error and the stream ends on an item boundary or at a payload error (and, if a payload error is to be reported as fatal, there is none). |
| `Walk.FragmentExample` | src/report/walk.c:95-101 | A container whose stream stops inside an item: the header promises a report, the walk makes none. |
| `Walk.PayloadErrorExample` | src/report/walk.c:110-115 | A container with a good item after a bad one: the header ends the section, the walk goes on. |
| `Lz77.RoundTrip` | src/codec/lz77.c:41-147 | Decoding an encoding returns the input for every byte string, or RANGE when it does not fit. |
| `Lz77.FindIsLongest` | src/codec/lz77.c:13-39 | A found match agrees with the earlier bytes, lies in the 4096-byte window, and no longer match exists there. |
| `Lz77.LongestInWindow` | src/codec/lz77.c:13-39 | In plain terms: nothing that starts in the last 4096 bytes repeats more of what comes next, up to 18 bytes, than the match found; a match has at least three bytes. |
| `Lz77.ParseReplays` | src/codec/lz77.c:41-92 | Replaying the chosen tokens with byte-by-byte overlapping copies reproduces the input; no offset exceeds what was produced. |
| `Lz77.SizeBound` | src/codec/lz77.c:41-92 | Output is at most n + ceil(n/8) bytes. |
| `Lz77.GuardDiffers` | src/codec/lz77.c:128-128 | The code and its documentation give the same result exactly when no reached match token has an offset one past the bytes written. |
| `Lz77.GuardExample` | src/codec/lz77.c:128-128 | A concrete stream on which they differ. |
| `Lz77.FindMatch` | src/codec/lz77.c:13-39 | The search loops compute the specified match. |
| `Lz77.EncodeInto` | src/codec/lz77.c:41-92 | The grouped token loop writes exactly the specified bytes, or fails with RANGE exactly when they do not fit. |
| `Lz77.DecodeInto` | src/codec/lz77.c:94-147 | The in-place decoder with overlapping copies computes the specified decoding. |
| `Rle.RoundTrip` | src/codec/rle.c:8-66 | Decoding an encoding returns the input, or RANGE. |
| `Rle.Optimal` | src/codec/rle.c:8-34 | No sequence of count/value pairs that decodes to the same bytes is shorter than the greedy encoding. |
| `Rle.SizeBound` | src/codec/rle.c:8-34 | Output is at most 2n bytes. |
| `Rle.EncodeInto` | src/codec/rle.c:8-34 | The run loop writes exactly the specified bytes, or RANGE. |
| `Rle.DecodeInto` | src/codec/rle.c:36-66 | The decode loop computes the specified decoding, errors included. |
| `Varint.RoundTrip` | src/codec/varint.c:12-82 | For every word-aligned input, decode inverts encode; the fifth-group check never rejects encoder output. |
| `Varint.SizeBound` | src/codec/varint.c:54-82 | At most five bytes for each word. |
| `Varint.EncodeInto` | src/codec/varint.c:54-82 | Refines the word-by-word encoding. |
| `Varint.DecodeInto` | src/codec/varint.c:12-52 | Refines the strict decoding. |
| `Delta.ZigZagBijection` | src/codec/delta.c:9-18 | Zig-zag and its inverse undo each other on all 32-bit words. |
| `Delta.RoundTrip` | src/codec/delta.c:20-124 | For every word-aligned input the wrapping deltas cancel and decode inverts encode. |
| `Delta.SizeBound` | src/codec/delta.c:20-62 | At most 4 + 5n/4 bytes. |
| `Delta.EncodeInto` | src/codec/delta.c:20-62 | Refines the delta stream. |
| `Delta.DecodeInto` | src/codec/delta.c:64-124 | Refines the decoding. |
| `Base32.RoundTrip` | src/codec/base32.c:27-127 | Decoding an encoding returns the input for every length and all five padding cases (section 6 of RFC 4648). |
| `Base32.Length` | src/codec/base32.c:27-62 | Encoded length is 8 times the ceiling of n/5. |
| `Base32.Accepts` | src/codec/base32.c:65-127 | Decode succeeds exactly on texts whose length is a multiple of 8, whose padding is confined to the last group and of an allowed count, whose other characters are of the alphabet, and whose output fits. |
| `Base32.EncodeInto` | src/codec/base32.c:27-62 | Refines the group-wise encoding. |
| `Base32.DecodeInto` | src/codec/base32.c:65-127 | Refines the group-wise decoding. |
| `Dict.RoundTrip` | src/codec/dict.c:22-177 | Decoding an encoding returns the input, a short last block included, or RANGE. |
| `Dict.BuildFacts` | src/codec/dict.c:96-150 | Table entries are pairwise distinct, every token is below the entry count and names its block. |
| `Dict.EncodeFails` | src/codec/dict.c:96-177 | Encoding fails exactly when there are more than 65535 distinct blocks or the output does not fit the buffer; the former is refused with any buffer. |
| `Dict.SizeBound` | src/codec/dict.c:151-176 | Output is at most 2 + n + 3 ceil(n/4) bytes. |
| `Dict.EncodeInto` | src/codec/dict.c:96-177 | The interning and emission loops write the specified bytes. |
| `Dict.DecodeInto` | src/codec/dict.c:22-76 | The table and token loops compute the specified decoding. |
| `Codecs.RoundTrip` | src/codec/registry.c:15-37 | All seven codecs: what encodes successfully decodes to the original bytes. |
| `Codecs.RoomSuffices` | src/writer/writer.c:315-333 | The stated worst cases are real bounds: with that room only a codec's own refusal remains, and with less the result is the same or RANGE. |
| `Codecs.RetryIsUnlimited` | src/writer/writer.c:315-333 | For every section up to 64 MiB the retry loop ends with the codec's own verdict, and space is short at most once. |
| `Codecs.Compress` | src/writer/writer.c:315-333 | The loop itself, with a new buffer for each attempt: that verdict, in at most two attempts, or eleven when the dictionary refuses the section. |
| `Codecs.RefusalAttempts` | src/writer/writer.c:315-333 | A section with more than 65535 distinct blocks is tried at most eleven times before the capacity limit ends the loop. |
| `Codecs.DecodeFits` | src/codec/registry.c:15-37 | No decoder delivers more than the room it was given, on any input. |
| `KnownCodecs.UnknownIds` | src/codec/registry.c:15-37 | Exactly the codec bytes 0 to 6 are in use. |
| `KnownCodecs.RleKnown` | src/codec/_smoke.c:120-158 | Codec byte 1 is count and value pairs, with the errors of malformed ones. |
| `KnownCodecs.VarintKnown` | src/codec/_smoke.c:160-205 | Codec byte 2 writes the low seven bits first; an unfinished, a sixth and an overlong fifth group give their errors. |
| `KnownCodecs.LzKnown` | src/codec/_smoke.c:246-260 | Codec byte 3: eight equal bytes become a literal and an overlapping match. |
| `KnownCodecs.LzErrors` | src/codec/_smoke.c:223-244 | A match before any output, an offset too large, no room and half a match: the first is the read outside the buffer that the guard admits, where the repository's own check expects BADRECORD. |
| `KnownCodecs.DictKnown` | src/codec/_smoke.c:262-272 | Codec byte 4: table, then tokens, with a short last block. |
| `KnownCodecs.DictErrors` | src/codec/_smoke.c:274-299 | A token beyond the table, a phrase cut off, and too little room. |
| `KnownCodecs.DeltaKnown` | src/codec/_smoke.c:301-325 | Codec byte 5: a raw word, then zig-zag differences. |
| `KnownCodecs.Base32Known` | src/codec/base32.c:27-127 | Codec byte 6 on the test vectors of section 10 of RFC 4648. |
| `KnownContainers.TinyWalk` | src/report/walk.c:64-137 | A container of one section, byte by byte: the walk decodes its blob with the codec of the row's codec byte and visits the items, or reports the section. |
| `KnownContainers.HeartbeatKnown` | src/records/_smoke.c:148-170 | The bytes of a container that holds one HEARTBEAT, and the record the walk returns. |
| `Replay.ReplayFaithful` | src/report/repack.c:82-112 | Whatever items are replayed, if the tool succeeds then walking its output reports no fault and returns exactly those items in order, with their types and target codecs, numbered without gaps, and the output has no other section. |
| `Replay.ReplayFaithfulIff` | src/report/repack.c:82-112 | Both directions for any grouped items: a successful output carries them exactly when no source section outweighs the walker's decode limit. |
| `Replay.OutputAbandonsIff` | src/report/walk.c:76-79 | Walking a successful output abandons a section exactly when some source section outweighs the decode limit. |
| `Replay.OverweightLost` | src/report/walk.c:76-79 | Items of one source section over the limit are all lost to a later walk. |
| `Replay.SameSections` | src/report/dedup.c:137-175 | Two output records share a section exactly when their sources did, and section order is kept: each source section with a kept record becomes exactly one output section. |
| `Replay.ReplayedIsRun` | src/report/repack.c:82-112 | While it succeeds, the loop is a run of the writer. |
| `Tools.WalkReplayable` | src/report/walk.c:46-137 | Every walk of any bytes yields records that can be replayed: well-formed, grouped by section, and no section heavier than the stream it came from. |
| `Tools.RepackFaithful` | src/report/repack.c:49-112 | Repacking changes the codec of every section and nothing else. |
| `Tools.SelectFaithful` | src/report/select.c:54-122 | Selecting keeps exactly the records that satisfy the query, in order. |
| `Tools.SignFaithful` | src/report/sign.c:50-116 | Signing keeps every record, and the output ends in the MAC of everything before it. |
| `Tools.RecordsAgree` | src/report/repack.c:14-19 | A replayed record is unchanged exactly when the wire preserves it. |
| `Tools.ReplayAll` | src/report/repack.c:82-112 | The loop with its section_open and cur_section variables, driving the writer object, returns the specified bytes or code; a section that cannot be opened is OOM. |
| `Tools.Absorb` | src/report/select.c:26-52 | The growing item array holds exactly the selected events. |
| `Tools.RepackMemory` | src/report/repack.c:49-112 | Walk, absorb and replay compose to the specified tool. |
| `Tools.SelectMemory` | src/report/select.c:54-122 | Likewise for select. |
| `Tools.SignMemory` | src/report/sign.c:50-116 | Likewise for sign. |
| `Success.OutputIff` | src/report/repack.c:82-112 | The replay loop succeeds exactly when there are at most 64 output sections, each of at most 64 MiB and with a codec that does not refuse it (whole words for varint and delta, at most 65535 distinct blocks for dict), and their blobs take at most 4 GiB. |
| `Success.RepackIff` | src/report/repack.c:49-112 | Repack succeeds exactly when the codec exists, the input can be walked and the recoded records can be so written. |
| `Success.SelectIff` | src/report/select.c:54-122 | Likewise for select and the records that satisfy the query. |
| `Success.SignIff` | src/report/sign.c:50-116 | Likewise for sign, which also wants a key. |
| `Success.RepackErrors` | src/report/repack.c:59-112 | When repack fails, with which error: INVAL for an unknown codec, the parser's error, then the first in writing order (a section the codec or the size limits refuse, a sixty-fifth section, reported as OOM), or RANGE for over 4 GiB of blobs. |
| `Success.SignErrors` | src/report/sign.c:59-116 | The same for sign, with INVAL for an empty key. |
| `Success.SelectErrors` | src/report/select.c:92-122 | The same for select, on the records it keeps. |
| `Dedup.DeduplicateSucceedsIff` | src/report/dedup.c:101-175 | Likewise for dedup and the kept records. |
| `Vectors.Vector.Push` | src/report/diff.c:17-31 | Appending keeps every earlier element across growth and follows the doubling capacities. |
| `Diff.EqualSymmetric` | src/report/diff.c:73-192 | The comparator is symmetric. |
| `Diff.EqualTransitive` | src/report/diff.c:73-192 | The comparator is transitive, under IEEE equality of samples. |
| `Diff.EqualIff` | src/report/diff.h:42-45 | On all pairs of records and both settings, the comparator is the documented field-for-field identity exactly when the pair is in neither of two explicit classes: distinct records taken for equal (key references to one slot, strings that differ behind a NUL, signs of zeros) and identical records taken for different (NaN samples, cleared DIAG blobs). |
| `Diff.EqualMeans` | src/report/diff.c:73-192 | What the comparator decides, in terms of identity and those classes. |
| `Diff.EqualExamples` | src/report/diff.c:73-192 | A concrete pair of well-formed records for each class that comes off the wire: KEYREF labels, LOG and CONFIG strings behind a NUL, zeros of different sign, a NaN. |
| `Diff.CanonEqual` | src/report/diff.c:73-192 | A record equals its wire form, redaction ignored, exactly when no sample is a NaN. |
| `Diff.CanonInvisible` | src/report/diff.c:73-192 | Two records compare alike before and after the wire. |
| `Diff.NoDiffs` | src/report/diff.h:20-21 | The difference count of two streams is 0 exactly when they have the same length and equal records throughout. |
| `Diff.NoDiffsMean` | src/report/diff.h:20-21 | A count of 0 certifies identity throughout exactly when no position is in the first class; identical streams count 0 exactly when none is in the second. |
| `Diff.DiffsSymmetric` | src/report/diff.c:263-292 | The count does not depend on the order of the files. |
| `Diff.DiffsCount` | src/report/diff.c:263-292 | The count is the number of common positions that differ plus the number of records that only the longer file has. |
| `Diff.CountDiffs` | src/report/diff.c:263-292 | The three counting loops compute that count. |
| `Dedup.DroppedIffRepeated` | src/report/dedup.c:76-99 | A record is dropped exactly when it equals some earlier record, although only earlier kept ones are compared. |
| `Dedup.DropsMean` | src/report/dedup.h:11-13 | A record is dropped without being a documented duplicate exactly when some earlier record coarsely matches it, and kept although one exactly when every identical earlier record compares different. |
| `Dedup.MarkIff` | src/report/dedup.h:11-13 | The flags are the documented ones exactly when neither happens to any record. |
| `Dedup.CopySurvivesIff` | src/report/dedup.h:11-13 | The output still has an identical copy of a record exactly when nothing before its first occurrence coarsely matches it. |
| `Dedup.DeduplicateIff` | src/report/dedup.c:101-175 | On every container: what is written is the documented selection exactly when no record is lost to a coarse match and no duplicate holds a NaN. |
| `Dedup.DropExamples` | src/report/dedup.c:76-99 | Two keys in one slot: the second is dropped; two equal NaN readings: both stay. |
| `Dedup.KeptAllDifferent` | src/report/dedup.c:76-99 | The kept records are pairwise different. |
| `Dedup.NothingToDrop` | src/report/dedup.c:76-99 | Nothing is dropped exactly when all records are pairwise different. |
| `Dedup.SecondPassKeepsAll` | src/report/dedup.c:76-99 | Marking the kept records again drops none. |
| `Dedup.DeduplicateFaithful` | src/report/dedup.c:101-175 | The output carries exactly the kept records, in order. |
| `Dedup.Idempotent` | src/report/dedup.c:101-175 | Deduplicating the output container drops nothing, whatever the input container. |
| `Dedup.RepackDiffs` | src/report/diff.c:235-303 | A container and its repacking have no differences exactly when no sample is a NaN. |
| `Dedup.MarkAll` | src/report/dedup.c:76-99 | The nested loops clear exactly the specified flags and count them. |
| `Dedup.ReplayKept` | src/report/dedup.c:137-175 | The replay loop that passes over records whose flag is clear writes what replaying the kept ones writes. |
| `Dedup.DedupMemory` | src/report/dedup.c:101-175 | Walk, mark and replay compose to the specified tool. |
| `ByTag.RegroupIsStableSort` | src/report/merge.c:112-129 | The emission order is sorted by tag, keeps each tag's records in order of arrival, and is a permutation of the input. |
| `ByTag.RegroupIsOnlyOne` | src/report/merge.c:112-129 | No other sequence has those properties. |
| `ByTag.RegroupParts` | src/report/split.h:10-16 | Regrouping the split parts, in any order of the tags, gives what regrouping the whole gives. |
| `ByTag.MergedFaithful` | src/report/merge.c:111-130 | Walking a merged container returns every record of every input in that order, one section for each tag, its type the tag, exactly when no tag outweighs the walker's decode limit. |
| `ByTag.SplitFaithful` | src/report/split.c:43-87 | Walking a split file returns exactly its tag's records, in order, exactly when they do not outweigh that limit. |
| `SplitMerge.Groups.OnSplitRecord` | src/report/split.c:23-41 | Across any number of growths, each tag's vector holds exactly that tag's records in order. |
| `SplitMerge.Groups.OnMergeRecord` | src/report/merge.c:28-58 | The same, unless the cached base is stale, in which case the write goes to a released block. |
| `SplitMerge.FullIsDoubled` | src/report/merge.c:34-47 | A vector is full exactly at 16, 32, 64, ... records. |
| `SplitMerge.HazardIff` | src/report/merge.c:48-56 | Stated without recursion: some record of the stream arrives at a full vector directly after a record of its own tag. That this is when the released block is written is Groups.OnMergeRecord and, over a stream, AbsorbMerge. |
| `SplitMerge.AbsorbMerge` | src/report/merge.c:28-58 | Over a whole stream of records: if the callbacks end without error there was no such record and the vectors hold the stream; if they write a released block there was one. |
| `SplitMerge.SeventeenHeartbeats` | src/report/merge.c:48-56 | Seventeen records of one tag in a row do it, sixteen do not. |
| `SplitMerge.MergeIffNoHazard` | src/report/merge.c:74-130 | On every list of inputs, readable or not: merge writes a released block exactly when a record that reaches its callback meets the stale base, and exactly otherwise does what it documents. |
| `SplitMerge.IntendedInBounds` | src/report/merge.c:74-130 | Merge as documented never ends out of bounds, whatever the inputs. |
| `SplitMerge.HazardBeforeBadInput` | src/report/merge.c:74-130 | Concrete inputs on which the released block is written before an unreadable file is reached. |
| `SplitMerge.MergeFaithful` | src/report/merge.c:74-130 | Whenever merge succeeds, its output carries the stable ordering by tag of all records of all inputs, exactly when no tag outweighs the walker's decode limit. |
| `SplitMerge.PartsHazard` | src/report/merge.c:48-56 | The concatenated split files reach the stale base exactly when some tag has more than sixteen records. |
| `SplitMerge.SplitAllCovers` | src/report/split.c:126-133 | The files written are, in ascending order, those of exactly the tags that occur. |
| `SplitMerge.SplitAllIsSplit` | src/report/split.c:126-133 | The written files meet the hypotheses of the split-then-merge theorems: each tag once, every tag that occurs. |
| `SplitMerge.GatherSplit` | src/report/merge.c:62-72 | What merge gathers from split files: the parts, in the order of the files, of exactly the tags that fit one walkable section. |
| `SplitRoundTrip.SplitThenMerge` | src/report/split.h:10-16 | On every container, with merge as documented: merging its split files, in any order, gives byte for byte what merging the container gives, exactly when there is a file at all and no tag outweighs the walker's decode limit; and merging the container succeeds. |
| `SplitRoundTrip.SplitThenMergeAsWritten` | src/report/merge.c:74-130 | On every container, with merge as written: that result is given exactly when there is a file and none has more than sixteen records; released memory is written exactly when some file that can be walked has more than sixteen. |
| `SplitRoundTrip.MergedOk` | src/report/merge.c:111-130 | If every tag that occurs can be split off, the whole can be merged. |
| `SplitMerge.MergeMemory` | src/report/merge.c:74-130 | The vectors, the emission loop and the writer compose to the specified merge. |
| `SplitMerge.SplitMemory` | src/report/split.c:89-133 | Likewise for split; the first failing tag stops it. |
| `Lex.DigitsMeaning` | src/query/lex.c:31-56 | The overflow guard refuses exactly the numbers above the 64-bit maximum, and accepted digits have their decimal value. |
| `Lex.QuotedSpan` | src/query/lex.c:59-87 | A string span never ends inside an escape and with its closing quote makes up exactly what was consumed. |
| `Lex.NoDanglingToken` | src/query/lex.c:59-87 | No string token of any query text ends in a dangling escape. |
| `Lex.Lexer.LexNext` | src/query/lex.c:89-156 | The cursor-driven lexer computes the specified token and moves behind it; it never reads past the terminator. |
| `QueryText.LexedIff` | src/query/lex.c:89-156 | A text has these tokens and no lexical error exactly when it spells them: each operator by its characters, names with underscores, decimal numbers of at most 63 bits, quoted strings, any blanks between, and no word that runs into the next. |
| `QueryText.CompileTextIff` | src/query/parse.c:216-237 | From characters to tree: a query is accepted with a tree exactly when the text spells a derivation of that tree within the depth budget. |
| `QueryText.OperatorSpelt` | src/query/lex.c:127-153 | The six comparison operators are spelled `==`, `!=`, `<`, `<=`, `>` and `>=`, and no other way. |
| `QueryGrammar.AcceptsGrammar` | src/query/parse.c:66-237 | The parser returns a tree exactly when the tokens have a derivation in the grammar within the depth budget with that tree: left-associative disjunction, then left-associative conjunction, then non-associative comparison, then `!`. |
| `QueryGrammar.TreeIsUnique` | src/query/parse.c:66-237 | A token string has at most one tree. |
| `QueryGrammar.NestingLimit` | src/query/parse.h:9-9 | k nested parentheses are accepted exactly for k up to 15. |
| `QueryGrammar.NegationLimit` | src/query/parse.h:9-9 | k negations in a row are accepted exactly for k up to 61. |
| `QueryGrammar.LiteralRoundTrip` | src/query/parse.c:34-62 | Every NUL-free string can be written as a literal and is read back, consuming exactly the literal. |
| `QueryText.LiteralIff` | src/query/parse.c:34-62 | Of the spans the lexer yields exactly one denotes each string: quotes and backslashes behind a backslash, everything else as it is. |
| `QueryParser.CompileIff` | src/query/parse.c:216-237 | A query text is accepted with a tree exactly when it lexes to the end and its tokens derive that tree. |
| `QueryParser.DecodeString` | src/query/parse.c:34-62 | The escape loop computes the specified decoding, and its failure is the dangling escape exactly when the first thing wrong with the span is that it ends inside an escape. |
| `QueryParser.EndsInEscapeIff` | src/query/parse.c:44-56 | That is so exactly when the span dangles and everything before its last backslash decodes. |
| `QueryParser.Parser.ParsePrimary` | src/query/parse.c:66-131 | Mutates lexer, lookahead and latched error exactly as the specified parse says; the dangling-escape branch is never taken. |
| `QueryParser.Parser.ParseAnd` | src/query/parse.c:170-191 | The loop builds the left-deep tree. |
| `QueryParser.Parser.ParseExpr` | src/query/parse.c:193-214 | Likewise for disjunction; terminates because tokens ahead or the rule decrease. |
| `QueryParser.ParseQuery` | src/query/parse.c:216-237 | The object-based parser computes the specified compilation, lexical errors and trailing input included. |
| `Eval.BooleanLaws` | src/query/eval.c:246-279 | Double negation and both De Morgan laws on every tree and record. |
| `Eval.StrOrderIsLexicographic` | src/query/eval.c:201-218 | Comparing the common part and then the lengths is the lexicographic order on bytes. |
| `Eval.StringsTotallyOrdered` | src/query/eval.c:201-218 | String comparison is total, antisymmetric and transitive. |
| `Eval.NegationAgrees` | src/query/eval.c:220-234 | For each operator, negating a comparison agrees with the opposite operator exactly when both sides resolve and, for ordering, have the same kind. |
| `Eval.NotEqualAgrees` | src/query/eval.c:220-234 | `!(a == b)` agrees with `a != b` exactly when both sides resolve. |
| `Eval.TypeNameDenotesTag` | src/query/eval.c:71-94 | Each type name, in any mixture of case, denotes its tag. |
| `Eval.TypenameTag` | src/query/eval.c:71-94 | The table search computes the specified tag. |
| `Eval.FindPair` | src/query/eval.c:140-150 | The key search returns the first matching pair's value. |
| `Eval.ConfigKeyIff` | src/query/eval.c:167-186 | A bare name reads the CONFIG pair with that key exactly when it is neither type nor, in any case, a record type's name; qualified by config it always does. |
| `Eval.ConfigKeyExample` | src/query/eval.c:167-186 | A pair with the key log, which the bare name cannot read. |
| `QuerySelect.SelectQueryFaithful` | src/report/select.c:54-122 | From query text to output container: the output carries exactly the records on which the query's tree is true. |
| `QuerySelect.SelectSpelt` | src/report/select.c:54-122 | The same from the characters of any spelling: what selects is the tree of the derivation that is spelled. |
| `Eval.ComparisonMeans` | src/query/eval.c:188-234 | For all trees on both sides and each operator: integers are compared by size, strings by lexicographic order, an integer and a string are only unequal, and nothing compares with a missing value. |
| `Eval.BareMeans` | src/query/eval.c:236-244 | A term on its own selects by a number that is not zero or a string that is not empty. |
| `Eval.TypeMeans` | src/query/eval.c:167-186 | `type == name` selects exactly the records of the type that the name denotes, and a qualified field is there only in records of its type. |
| `Eval.TypeTagIff` | src/query/eval.c:66-94 | A name denotes a record type exactly when it is one of the eleven names, in any case, each with its tag. |
| `KnownQueries.SeqQuery` | src/query/_smoke.c:147-151 | The text `seq > 100` selects a heartbeat with sequence number 150 and no battery record. |
| `KnownQueries.ConnectiveQueries` | src/query/lex.c:129-134 | Two terms joined by a double ampersand are both needed, of two joined by a double bar one is enough: one and zero as literal texts. |
| `QuerySelect.SelectQueryMemory` | src/report/select.c:54-122 | Compile, walk, absorb and replay compose to that tool. |
| `QueryExport.FieldsAgree` | src/query/eval.c:97-165 | For every record of a known type and every field name, known or not: what a query reads is what the exported object says, looked up by member name, payloads withheld by redaction aside. |
| `QueryExport.VersionAgrees` | src/query/eval.c:121-125 | The member named version is made of the three version fields a query reads. |
| `QueryExport.LookupAgrees` | src/query/eval.c:140-150 | Looking a key up in a CONFIG record agrees with looking it up in the exported object, on every list of pairs, repeated keys included. |
| `QueryExport.LengthsAgree` | src/query/eval.c:130-161 | The field len is the length of the member that holds the message or the bytes. |
| `Timeline.BuildCovers` | src/report/timeline.c:14-75 | On every record stream, sessions are consecutive intervals opened by heartbeats that, after the unattributed prefix, cover every record once; counts are exact and histograms are true ones on top of the memory's old contents. |
| `Timeline.EveryRecordCounted` | src/report/timeline.c:61-75 | Unattributed and attributed records add up to the stream. |
| `Timeline.CountersAgree` | src/report/timeline.c:46-55 | The incremental gap and ordering counters equal those recomputed from the finished table. |
| `Timeline.AnomaliesMean` | src/report/timeline.h:12-21 | On every record stream and under every option: a gap for each heartbeat whose uptime exceeds that of the heartbeat before by more than tolerance times interval (60 and 2 for an option that is absent or zero), an ordering violation for each whose uptime is below it. |
| `Timeline.GapExample` | src/report/timeline.c:46-55 | With default options, heartbeats 120 s apart are no gap and 121 s apart are one. |
| `Timeline.HistogramIff` | src/report/timeline.c:37-44 | A session's histogram is the documented one exactly when its memory held zeros outside the heartbeat entry. |
| `Timeline.HistogramExample` | src/report/timeline.c:37-44 | One heartbeat and one LOG record in memory that held a seven: the report would show eight. |
| `Timeline.BuildTimeline` | src/report/timeline.c:14-75 | The growing session array and counters compute the specified table. |
| `Timeline.Recount` | src/report/timeline.c:113-151 | The print loop's anomalies are the recomputed ones, for the same options and their defaults. |
| `Arena.RunsAreSound` | src/core/arena.c:87-159 | Over every sequence of allocations and resets, regions handed out since the last reset are pairwise disjoint, 16-byte aligned and inside the used part of their slab. |
| `Arena.RegionsStay` | src/core/arena.c:64-159 | Until a reset, whatever is allocated later, every region stays at its address, inside its slab and apart from all later regions. |
| `Arena.AlignUpIsLeast` | src/core/arena.c:43-53 | Rounding up gives the least aligned size, or 0 exactly when it would wrap. |
| `Arena.DefaultSlab` | src/core/arena.c:87-145 | The first slab of an arena with default settings has 4096 bytes, and what fits is handed out in steps of 16. |
| `Arena.Allocator.ReserveSlot` | src/core/arena.c:64-85 | Growing the descriptor array keeps every descriptor. |
| `Arena.Allocator.Allocate` | src/core/arena.c:87-145 | The allocator refines the specified step: only the last slab is tried, a request for nothing fails. |
| `Arena.Allocator.ResetAll` | src/core/arena.c:147-159 | The loop rewinds every slab and releases none. |
| `Json.StringBack` | src/report/export.c:22-42 | Every byte string, escaped and quoted, is read back, consuming exactly the quoted span (section 7 of RFC 8259). |
| `Json.ValueBack` | src/report/jimport.c:267-364 | Every tree within the depth limit whose number texts the parser takes whole, written compactly, is read back, consuming exactly its text. |
| `JsonGrammar.ReadIff` | src/report/jimport.c:57-364 | The importer's parser returns a tree and the rest exactly when the text is blanks, then a derivation of that tree (blanks anywhere, every escape, every form of number) with at most 64 values nested, then that rest. |
| `JsonGrammar.CharacterIff` | src/report/jimport.c:76-143 | Which words stand for which byte inside a string: itself, the eight short escapes, or a Unicode escape of at most 7F with digits in either case. |
| `JsonGrammar.U32Iff` | src/report/jimport.c:382-395 | An unsigned field is read exactly from integers of at most 32 bits and from their negatives modulo 2^64. |
| `JsonGrammar.I32Iff` | src/report/jimport.c:397-411 | A signed field is read from every integer, cut off at 64 bits and taken modulo 2^32. |
| `JsonText.DecimalRoundTrip` | src/report/jimport.c:382-410 | Printed integers are read back by the unsigned and the signed reader. |
| `JsonText.HexRoundTrip` | src/report/jimport.c:429-451 | Hexadecimal fields decode to the printed bytes. |
| `JsonText.HexIff` | src/report/jimport.c:429-451 | Hexadecimal text in any mixture of cases denotes these bytes exactly when it has their two digits each, high digit first. |
| `JsonText.VersionRoundTrip` | src/report/jimport.c:665-683 | The dotted version text scans back to its three numbers. |
| `JsonGrammar.ScanRead` | src/report/jimport.c:668-670 | One version number off a text, with white space, signs, overflow and the cut to 32 bits as the C library has them. |
| `JsonRecords.ImportBack` | src/report/jimport.c:454-687 | For every type but SENSOR, importing the exported object gives the record's text form, and the record itself exactly when its strings are NUL-free and no payload was redacted away. |
| `JsonRecords.ConfigImportIff` | src/report/jimport.c:606-639 | On every pairs object: the import succeeds exactly with at most 255 pairs, all of them strings; it writes past its array exactly when the low byte of the count is too small for it and the values up to that write are strings. |
| `JsonRecords.SensorImportIff` | src/report/jimport.c:483-512 | The same for the samples of a SENSOR object, sample texts judged by any reader. |
| `JsonRecords.ShortIff` | src/report/jimport.c:606-639 | The array is too small exactly from 256 to 65535 elements. |
| `JsonRecords.ShortExamples` | src/report/jimport.c:483-639 | Concrete CONFIG and SENSOR objects on which the importer leaves its array. |
| `JsonRecords.MembersMean` | src/report/export.c:142-223 | Every exported object holds its type, its tag and each field of its record under the documented member name. |
| `JsonRecords.EventImportIff` | src/report/jimport.c:514-530 | On every object with an EVENT tag, which record it becomes: code, and bytes that `payload_hex` denotes in either case. |
| `JsonRecords.DiagImportIff` | src/report/jimport.c:532-553 | The same for DIAG; a redacted blob is not looked at. |
| `JsonRecords.FirmwareImportIff` | src/report/jimport.c:665-686 | The same for FIRMWARE; the hash has eight bytes. |
| `JsonRecords.ImportErrors` | src/report/jimport.c:454-687 | Whatever the object, the importer's only error is BADRECORD, and only the arrays of SENSOR and CONFIG can be left. |
| `JsonRecords.HexAnyCase` | src/report/jimport.c:429-451 | The exported object of such a record, its hexadecimal member rewritten in any mixture of cases, imports to the same record. |
| `JsonTool.TextRoundTrip` | src/report/export.c:225-291 | For every list of such records, parsing the exported array returns them in order; all of them unchanged exactly when all are safe as text. |
| `JsonDocument.DocumentIff` | src/report/jimport.c:691-719 | The importer takes a text for an array of these values exactly when it is a derivation of one between blanks; every other text is BADRECORD. |
| `JsonTool.ContainerRoundTrip` | src/report/jimport.c:691-749 | Export, import and walk: the text forms of the records come back in order, in one STORE section of type 1, exactly when that section fits the walker's decode limit. |
| `JsonTool.WalkExportImportWalk` | src/report/jimport.h:11-21 | Walk a container without SENSOR records, export, import, walk again: the same records exactly when no string holds a NUL and together they fit one walkable section; beyond that size none comes back. |
| `Heavy.HeavyRun` | src/writer/writer.c:285-349 | A concrete writer run, 257 records of the largest size in one STORE section: every call succeeds, finishing does, and the walk abandons the section. |
| `Heavy.HeavySplit` | src/report/split.c:43-87 | A concrete container that walks in full, whose split file does not: merging the file does not give what merging the container gives. |
| `Heavy.HeavyImport` | src/report/jimport.c:691-749 | The same records exported and imported: a container from which the walk returns nothing. |
| `JsonParser.Parser.ParseString` | src/report/jimport.c:76-143 | The escape loop computes the specified string and leaves the cursor behind the closing quote. |
| `JsonParser.Parser.ParseValue` | src/report/jimport.c:267-364 | The mutually recursive parser computes the specified value and restores its depth. |
| `JsonParser.ImportMemory` | src/report/jimport.c:691-749 | Parse, convert and write compose to the specified import. |
| `JsonExport.Stream.PutJsonString` | src/report/export.c:22-42 | The character loop appends the escaped, quoted string. |
| `JsonExport.Stream.PutRecord` | src/report/export.c:225-233 | The emitters append exactly the record's object, member by member. |
| `JsonExport.ExportAll` | src/report/export.c:265-291 | The exporter writes the document of the record stream. |

## Left out

- File reading and writing, printing to streams, the command line and its arguments: I/O only.
- The pools and rings that hold record payloads (`src/records/event.c`, `diag.c`, `sensor.c`, `keyref.c`, the pool in `config.c`): payloads are sequences held by value, so reuse of a payload's memory while a record is retained is not modelled.
- The keyed hash, key derivation and key store: the MAC is a parameter, and nothing is claimed about forging it.
- Callbacks that stop a walk early: the tools' callbacks stop only when an allocation fails.
- Floating-point text: printing and reading of samples are parameters, and SENSOR is outside the text round trip.
- CSV import and export: the layout drops samples and pairs by design.
- Reservoir sampling, statistics, validation, index printing, hex dump, top-k, redaction and the fuzz harnesses: simple accumulation, or covered by the shared replay lemma.
- The fixed-layout record parsers (heartbeat, geo, battery, net, firmware, event, log, keyref, diag, sensor) are functions on values rather than cursor-driven methods: they have no loop but the sample loop, and only CONFIG is modelled with its cursor.
- Addresses inside the writer's arena: the writer's buffers are Dafny arrays; the allocator itself is modelled in Arena, whose poisoned redzones (sanitizer builds only) are left out.
- Text of diff reasons and of the printed timeline: only the counts and comparisons are modelled.
- NULL strings in the comparator: parsed records never hold one.
- Growth of the JSON parser's item, member and string buffers: these are sequences, and a failed allocation there is not modelled.
- JsonTool.WalkExportImportWalk: assumes that no record is a SENSOR, whose text is outside the round trip.
