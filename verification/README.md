# Verified model of the RPC stack

The repository is an RPC library: many callers share one connection, each request
carries an id, and the answers come back in any order. This project models the parts
that hold state or arithmetic and proves what they promise, over every input and every
run.

## What is modelled

- **Multiplexed calls.** The client dispatcher keeps a map from request id to promise, a
  limit on pending requests and a timer for each call. Callers, the connection's thread
  and the timers interleave, so `ClientDispatcher` splits `operator()` and `read` into
  the steps between which another thread can act: size check, insert, write or its
  exception, arming the timer; lookup, erase, completing the promise; and the timeout.
  Each step is a method of the class `MultiplexClientDispatcher`, proved equal to one
  function `Do` on the dispatcher's state. `Multiplexing` puts the dispatcher, the server's
  pool of workers and the two directions of the connection into one step system. The
  connection carries bytes: a message is serialized and prepended when it is written, and
  each read takes any number of bytes, which the decoder and the parser turn into the
  messages they complete. A *run* is any sequence of the system's steps. `CallOutcomes`,
  `Conservation`, `PendingLimit`, `SharedIds`, `Oversize` and `FutureProxy` prove
  properties of all runs, or construct (with `Runs`) runs that show what fails.
- **In-order answers.** `ServerDispatcher` models the pipelined dispatcher, with its
  32-bit counters and drain loop, and takes the serial dispatcher of the same file as its
  specification.
- **Framing.** `Prepender` and `FrameDecoder` model the length-field codecs with the
  source's conversions between `size_t`, `uint64_t`, `uint32_t` and `int`. `Framing`
  adds the loop that calls the decoder until it returns false, over a stream cut into
  reads in any way, and `Cuttings` says for which streams the cutting matters.
- **Message codec.** `Varint`, `Message`, `RpcMessage` and `MessageLaws` model the
  generated class with its presence bits, parse loop, serializers, sizes and merge, with
  unknown fields and their groups and with what a parse that fails leaves behind, on
  the wire format of the Protocol Buffers encoding specification (sections "Base 128
  Varints", "Message Structure", "Length-Delimited Records", "Last One Wins").
  `WireStack` composes codec and framing as both pipelines configure them.
- **Registry, proxy, split.** `RpcServer` models the table of services and the handler of
  one request, `FutureProxy` the proxy's counter, host selection and results, and
  `StringUtil` the two `split` functions.

`MachineInt`, `ByteOrder` and `Counting` hold the integer conversions, byte orders and
counting lemmas the rest uses.

## What turned out false, and when it holds

- The frame decoder's constructor accepts a length field wider than a frame, because its
  subtraction is unsigned (`Framing.ConstructorCheckTooWeak`). The guarded end offset is
  within the frame limit exactly when the width is (`Framing.ConstructorCheckExact`).
- After an error the way a stream is cut into reads can matter: an over-long frame is
  discarded only as far as it has arrived (`Framing.OverlongFrameDependsOnChunks`). All
  cuttings agree exactly when there is no error, or the error leaves nothing that could
  be decoded (`Cuttings.CuttingMattersExactlyWhen`); up to and including the first error
  they always agree (`Framing.ChunkIndependence`).
- A message of 65535 bytes passes the prepender and is then rejected by the decoder
  (`WireStack.LimitIsSharp`); a message is delivered exactly when it has at most 65534
  (`WireStack.MessageDelivered`). Worse, if the two length bytes of such a message are
  read on their own, the rest is taken for a frame, and the message's beginning arrives
  as a message of the same call with a piece of its payload. Such an answer gives the
  caller a value that the server never computed (`Oversize.AnswerIsCutOff`), such a
  request has the server execute another one (`Oversize.RequestIsCutOff`). Every call
  gets its own answer, from every server that gives no answer of that size, exactly when
  no request has it and ids are not shared (`Oversize.OwnAnswersForAllServersSized`). From
  a given server, and for requests none of which has that size, it is so exactly when no
  answer has it and no two requests can be confused
  (`Oversize.OwnAnswersExactlyWhenSized`); a request of that size spoils it if the server
  answers its cut-off form, and differently (`Oversize.SharpRequestIsWrong`).
- For a longer request the prepender throws after the entry has been inserted, and nobody
  removes the entry any more (`Oversize.OversizeRequestThrows`). With unique ids and no
  message of 65535 bytes these are exactly the entries that leak
  (`CallOutcomes.LeakedExactly`), so nothing leaks exactly when every request that the
  limit lets through fits (`CallOutcomes.LeakFreeExactlyWhen`); what leaks uses up the
  limit for good (`CallOutcomes.LeaksUseUpLimit`).
- Two callers can pass the size check together, so the pending limit can be exceeded; the
  exact bound is `limit + callers - 1` (`PendingLimit.PendingBound`,
  `PendingLimit.PendingBoundReached`).
- Calls that share an id, as two channels over one client make them, can get each
  other's answers (`SharedIds.SharedIdsConfuse`). Every call gets its own answer exactly
  when no two requests that can be sent share an id and differ in service, method or
  payload (`SharedIds.OwnAnswersForAllServers`).
- Round robin is balanced over every block of calls exactly when the number of hosts
  divides 2^64 (`FutureProxy.BalancedExactlyWhen`); before the counter has gone round it
  is for any number (`FutureProxy.RoundRobinBalance`).
- The reordering server is right while at most 2^32 requests are outstanding and can be
  wrong with one more (`ServerDispatcher.PipelinedRefinesSerial`,
  `ServerDispatcher.OneMoreBreaksOrder`).
- Splitting and joining a string restores it for every string exactly when no proper
  beginning of the pattern is also its end (`StringUtil.SplitJoinExactlyWhen`).

Where the code and its comments disagree, the model follows the code: the comment in
`net/PbRpcServer.cc:73` gives the prepender a field of 4 bytes, the code uses 2;
`protobufCoder/RpcMsgSerializeHandler.h` lists an older layout of the message; the
decoder's header describes 3-byte length fields, for which the code has no case.

## Model

| member | source | states |
|---|---|---|
| ByteOrder.BytesRoundTrip | codec/LengthFieldPrepender.cpp:55-97 | A field read back in either byte order is the written value modulo the field's capacity, for any value and width |
| ByteOrder.FromBytesBound | codec/LengthFieldBasedFrameDecoder.cpp:107-140 | A length read from a field is always below 256 to the power of the field's width |
| ByteOrder.BytePositions | codec/LengthFieldPrepender.cpp:60-92 | The byte of weight 256^i stands i-th from the front in little-endian order and i-th from the back in network order |
| Prepender.LengthFieldPrepender.WriteField | codec/LengthFieldPrepender.cpp:51-97 | Filling the buffer in place through the cursor leaves exactly the value's bytes in the configured order |
| Prepender.LengthFieldPrepender.Write | codec/LengthFieldPrepender.cpp:40-101 | One write gives the field followed by the payload, or the error for a negative or unfitting length, with the source's narrowing to `int` |
| FrameDecoder.LengthFieldBasedFrameDecoder.GetUnadjustedFrameLength | codec/LengthFieldBasedFrameDecoder.cpp:100-143 | Reads the field's value if offset and field lie within the buffer and the offset is not negative as an `int`, and fails otherwise |
| FrameDecoder.LengthFieldBasedFrameDecoder.Decode | codec/LengthFieldBasedFrameDecoder.cpp:43-98 | One decode call reports and leaves in the queue exactly what `DecodeStep` says: every branch, with `uint32_t` and `uint64_t` wrap-around |
| FrameDecoder.LengthFieldBasedFrameDecoder.SplitFrame | codec/LengthFieldBasedFrameDecoder.cpp:94-97 | Takes the frame between the stripped header and the frame's end, or empties the queue when the `int` length turns negative |
| Framing.DecodeSafety | codec/LengthFieldBasedFrameDecoder.cpp:49-97 | On arbitrary bytes a decode call only drops a prefix, takes the frame from inside it, drops at least one byte unless it waits for more (the frame, what has arrived of an over-long one, or the header of a too short one), and with limits in `int` range never asks the queue for more than it holds |
| Framing.OutcomeExactly | codec/LengthFieldBasedFrameDecoder.cpp:49-97 | With frames in `int` range each report of a decode call comes exactly for the bytes and announced lengths it stands for |
| Framing.FieldIsRead | codec/LengthFieldBasedFrameDecoder.cpp:102-140 | The length is the field behind the offset, in the configured order, whatever is in front of and behind it |
| Framing.FrameLengthPlainly | codec/LengthFieldBasedFrameDecoder.cpp:54-57 | The announced length is the field plus adjustment, offset and width, where a negative sum of the three counts as 2^32 more |
| Framing.ConstructorCheckExact | codec/LengthFieldBasedFrameDecoder.cpp:38-40 | Among accepted configurations the field ends within the frame limit if and only if it is no wider than the limit |
| Framing.ConstructorCheckTooWeak | codec/LengthFieldBasedFrameDecoder.cpp:38-40 | A configuration that the constructor accepts although its end offset has wrapped to 1 |
| Framing.DecodeStepMonotone | codec/LengthFieldBasedFrameDecoder.cpp:43-98 | Bytes arriving later change neither a frame nor an error already determined, and stay behind a frame untouched |
| Framing.ReadAll | codec/LengthFieldBasedFrameDecoder.cpp:43-98 | The decode-until-false loop terminates and yields exactly the events and leftover of `DecodeAll` |
| Framing.DecodeAllSplit | codec/LengthFieldBasedFrameDecoder.cpp:43-98 | Decoding what has arrived and then the rest is decoding all at once, up to and including the first error |
| Framing.ChunkIndependence | codec/LengthFieldBasedFrameDecoder.cpp:43-98 | Every cutting of every stream into reads gives the same frames up to the same first error, and without an error the same leftover |
| Framing.CleanPassIsStuck | codec/LengthFieldBasedFrameDecoder.cpp:49-83 | What a pass without errors leaves behind contains no further frame |
| Framing.OverlongFrameDependsOnChunks | codec/LengthFieldBasedFrameDecoder.cpp:68-76 | A stream on which two cuttings differ after an over-long frame: its late part is read as a new frame |
| Cuttings.CuttingMattersExactlyWhen | codec/LengthFieldBasedFrameDecoder.cpp:59-92 | For every configuration with frames in `int` range and every stream: all ways of reading it in chunks give the events and the leftover of decoding it at once if and only if there is no error, or of an over-long frame only the header has arrived, or nothing decodable follows another error |
| Cuttings.SettledAgrees | codec/LengthFieldBasedFrameDecoder.cpp:43-98 | For such streams every cutting agrees, from any buffer that waits for more |
| Cuttings.PlaceToCut | codec/LengthFieldBasedFrameDecoder.cpp:68-76 | Every other stream has a place where reading it in two parts decodes what the first part's error left over differently |
| Framing.FramingRoundTrip | codec/LengthFieldPrepender.cpp:40-101 | For all configurations with offset 0, same width and byte order: decoding a prepended payload gives exactly that payload and no leftover if and only if the two are compatible for its size |
| Framing.CompatiblePlainly | codec/LengthFieldPrepender.cpp:42-49 | Away from the top of the `int` range, compatible means that the adjustments cancel, the strip is the width, the decoder's adjustment plus width is not negative, and the length fits field and frame limit |
| Framing.FieldValueExact | codec/LengthFieldPrepender.cpp:42-45 | The `int` length is the plain sum, or that sum less 2^32 where the narrowing wraps |
| Framing.PrependFailsExactlyWhen | codec/LengthFieldPrepender.cpp:42-70 | A write throws for a negative length if and only if the plain sum is negative, and for one that does not fit if and only if it exceeds a 1- or 2-byte field, away from the top of the `int` range |
| Varint.ReadEncode | protobufCoder/RpcMessage.pb.cc:385-386 | Reading a varint with enough budget returns the encoded value and the bytes behind it |
| Varint.ReadFailsExactlyWhen | protobufCoder/RpcMessage.pb.cc:385-387 | A read fails if and only if none of the bytes it may look at is below 128 |
| Varint.ReadsTenBytes | protobufCoder/RpcMessage.pb.cc:385-387 | Reads of either width look at ten bytes |
| Varint.ReadDigits | protobufCoder/RpcMessage.pb.cc:385-386 | The value read has the low seven bits of the bytes up to the first below 128 as its digits to base 128, least significant first |
| Varint.EncodeDigits | protobufCoder/RpcMessage.pb.cc:517-534 | The encoding of a 64-bit value is those digits, marked with 128 but for the last, without a zero at the end |
| Varint.Read64Encode | protobufCoder/RpcMessage.pb.cc:412-414 | A 64-bit read inverts the encoding of every 64-bit value |
| Varint.Read32Encode | protobufCoder/RpcMessage.pb.cc:425-427 | A 32-bit read of a 64-bit varint sees its low half and consumes all of it |
| Varint.ReadBytesEncode | protobufCoder/RpcMessage.pb.cc:450-451 | A length-delimited read inverts writing length and payload, for every payload whose length fits `int` |
| Varint.Size64Exact | protobufCoder/RpcMessage.pb.cc:622-647 | The threshold table of the size functions gives the exact number of bytes of every varint |
| Varint.CodedInputStream.ReadVarint | protobufCoder/RpcMessage.pb.cc:385-387 | The byte loop reads what the recursive specification reads, and fails on the same inputs |
| Varint.CodedOutputStream.WriteVarint | protobufCoder/RpcMessage.pb.cc:517-534 | The byte loop appends exactly the shortest encoding |
| Varint.WriteVarintToArray | protobufCoder/RpcMessage.pb.cc:570-588 | Writing in place puts exactly the encoding between start and end and changes nothing behind it |
| MessageLaws.BodyReads | protobufCoder/RpcMessage.pb.cc:388-497 | The rest of every record reads back as that record, groups with all that is nested in them up to the depth the parser allows |
| MessageLaws.FieldsRead | protobufCoder/RpcMessage.pb.cc:493-494 | The fields of a group are read up to the tag that ends it |
| MessageLaws.ReadIsReadable | protobufCoder/RpcMessage.pb.cc:493-494 | On arbitrary bytes what is read, or kept of a failed read, is a record of the tag and nests no deeper than allowed |
| MessageLaws.RecordLayout | protobufCoder/RpcMessage.pb.cc:555-558 | The bytes of every unknown record, with the wire type in its tag and fixed widths in little-endian order |
| MessageLaws.WrongEndBreaks | protobufCoder/RpcMessage.pb.cc:493-494 | A group closed by another number's end tag is malformed |
| MessageLaws.UnreadableTagStops | protobufCoder/RpcMessage.pb.cc:490-492 | A zero tag and one that cannot be read end the parse as a success with input left |
| MessageLaws.RecordEffect | protobufCoder/RpcMessage.pb.cc:388-486 | What each known record does to a message: the field it sets, the width it is read with, and where an invalid enum value goes |
| MessageLaws.AbsentReadsDefault | protobufCoder/RpcMessage.pb.h:312-524 | A field that is absent reads as 1 for the type, 0 for numbers and error, and empty for bytes |
| MessageLaws.ParseRecords | protobufCoder/RpcMessage.pb.cc:379-506 | Parsing any sequence of records, in any order and with repetitions, applies them one after the other |
| MessageLaws.RecordsMerge | protobufCoder/RpcMessage.pb.cc:730-764 | Applying the records of a message in serialization order is merging the message |
| MessageLaws.ParseSerialized | protobufCoder/RpcMessage.pb.cc:379-506 | Parsing a serialized message into any message, with any bytes behind it, is merging it |
| MessageLaws.MessageRoundTrip | protobufCoder/RpcMessage.pb.cc:509-560 | Parsing the serialized form restores every field, presence and unknown record, for all ids, integers, byte strings and valid enum values |
| MessageLaws.ConcatenationIsMerge | protobufCoder/RpcMessage.pb.cc:730-764 | Parsing two serialized messages back to back is clearing and then merging first and second, for all presence masks and also with unknown fields |
| MessageLaws.ParsedIsEncodable | protobufCoder/RpcMessage.pb.cc:379-506 | Whatever the bytes, and also when the parse fails midway, what parsing keeps as unknown is unknown to the parser again and can be written and read |
| MessageLaws.RelayRoundTrip | protobufCoder/RpcMessage.pb.cc:379-506 | Parsing arbitrary bytes, serializing and parsing again changes nothing |
| MessageLaws.RecordSizeExact | protobufCoder/RpcMessage.pb.cc:655-659 | The size computed for any record, unknown groups included, is the length of its bytes, or both are 2^32 or more |
| RpcMessage.NarrowRead | protobufCoder/RpcMessage.pb.cc:392-395 | A 32-bit read of the same bytes is the 64-bit read narrowed, also as a signed enum value |
| RpcMessage.TaggedKnown | protobufCoder/RpcMessage.pb.cc:388-486 | Reading a known field with its own width and conversions is reading a generic record and applying it |
| RpcMessage.RpcMessage.constructor | protobufCoder/RpcMessage.pb.cc:212-221 | A new object stands for the empty message |
| RpcMessage.RpcMessage.SetType | protobufCoder/RpcMessage.pb.h:323-327 | Sets the type and its presence and nothing else |
| RpcMessage.RpcMessage.SetId | protobufCoder/RpcMessage.pb.h:342-346 | Sets the id and its presence and nothing else |
| RpcMessage.RpcMessage.SetServiceId | protobufCoder/RpcMessage.pb.h:360-364 | Sets the service id and its presence and nothing else |
| RpcMessage.RpcMessage.SetMethodId | protobufCoder/RpcMessage.pb.h:378-382 | Sets the method id and its presence and nothing else |
| RpcMessage.RpcMessage.SetRequest | protobufCoder/RpcMessage.pb.h:396-401 | Sets the request and its presence and nothing else |
| RpcMessage.RpcMessage.SetResponse | protobufCoder/RpcMessage.pb.h:456-461 | Sets the response and its presence and nothing else |
| RpcMessage.RpcMessage.SetError | protobufCoder/RpcMessage.pb.h:516-520 | Sets the error code and its presence and nothing else |
| RpcMessage.RpcMessage.IsInitialized | protobufCoder/RpcMessage.pb.cc:780-783 | The mask test holds if and only if type, id, service id and method id are each present |
| RpcMessage.RpcMessage.Clear | protobufCoder/RpcMessage.pb.cc:242-265 | Leaves the empty message, although it only resets the storage its masks select |
| RpcMessage.RpcMessage.MergeFrom | protobufCoder/RpcMessage.pb.cc:730-764 | The result is field by field the other message's value where it has one and the old value elsewhere, with the unknown records of both |
| RpcMessage.RpcMessage.MergePartialFromCodedStream | protobufCoder/RpcMessage.pb.cc:379-506 | The parse loop terminates and leaves the message and status of `Parse`, on every input, malformed ones included |
| RpcMessage.RpcMessage.MergeTagged | protobufCoder/RpcMessage.pb.cc:388-497 | The switch does for each tag what the record under that tag does, and on a failed read keeps the presence bits and the pieces stored so far |
| RpcMessage.RpcMessage.MergeType | protobufCoder/RpcMessage.pb.cc:390-406 | A valid type is stored, an invalid one kept as unknown record, a failed read changes nothing |
| RpcMessage.RpcMessage.MergeId | protobufCoder/RpcMessage.pb.cc:409-419 | The 64-bit value is stored as signed; when the read fails the presence bit is set all the same |
| RpcMessage.RpcMessage.MergeRequest | protobufCoder/RpcMessage.pb.cc:448-457 | The payload is stored; when it is cut short its beginning is stored, when there is no usable length the old content stays, and in both cases the presence bit is set |
| RpcMessage.RpcMessage.MergeError | protobufCoder/RpcMessage.pb.cc:469-486 | A valid error code is stored, an invalid one kept as unknown record, a failed read changes nothing |
| RpcMessage.RpcMessage.SkipField | protobufCoder/RpcMessage.pb.cc:488-496 | A record of no known field is kept whole, groups included; a broken one ends the parse and what has been read of it is kept |
| RpcMessage.RpcMessage.SerializeWithCachedSizes | protobufCoder/RpcMessage.pb.cc:509-560 | Appends exactly the message's wire form to the stream |
| RpcMessage.RpcMessage.InternalSerializeWithCachedSizesToArray | protobufCoder/RpcMessage.pb.cc:562-616 | Writes in place the same bytes as the stream serializer, returns their end, and changes nothing before or behind |
| RpcMessage.RpcMessage.RequiredFieldsByteSizeFallback | protobufCoder/RpcMessage.pb.cc:618-650 | The bytes the present required fields take on the wire |
| RpcMessage.RpcMessage.ByteSizeLong | protobufCoder/RpcMessage.pb.cc:651-713 | On both paths and for every message, the number of bytes the serializers emit, or, where that is 2^32 or more, a number that is too |
| RpcMessage.SerializedSize | protobufCoder/RpcMessage.pb.cc:509-560 | The wire form is as long as its seven optional parts and the unknown records together |
| RpcMessage.MessageLayout | protobufCoder/RpcMessage.pb.cc:509-560 | The bytes of a message: each present field under its own tag, 8, 16, 24, 32, 42, 50 and 56 in this order, numbers as 64-bit varints, and behind them the unknown records |
| WireStack.MessageDelivered | net/PbRpcServer.cc:82-83 | With the pipelines' configuration a message survives prepender and decoder if and only if it serializes to at most 65534 bytes |
| WireStack.LimitIsSharp | codec/LengthFieldBasedFrameDecoder.cpp:68-76 | A message of 65535 bytes is accepted by the prepender and rejected as too large by the decoder |
| WireStack.SharpMessage | codec/LengthFieldPrepender.cpp:67-70 | There are messages of 65535 bytes |
| WireStack.WrittenExactly | codec/LengthFieldPrepender.cpp:67-70 | The prepender throws for a message if and only if its length is over 65535 and fits `int` |
| WireStack.HugeArrivesEmpty | protobufCoder/RpcMsgSerializeHandler.cc:42-50 | A message beyond the range of `int` is written as an empty frame and arrives as the empty message |
| WireStack.DecodeStream | net/PbRpcClient.cc:46-50 | Any sendable messages written back to back, with an incomplete frame behind them, decode and parse to exactly those messages and that leftover |
| WireStack.FullStack | net/PbRpcServer.cc:82-86 | The same however the stream is cut into reads |
| WireStack.PartialFrameWaits | codec/LengthFieldBasedFrameDecoder.cpp:78-83 | Every proper beginning of a frame is such an incomplete frame |
| WireStack.PrefixDecodes | codec/LengthFieldBasedFrameDecoder.cpp:43-98 | What has arrived of a stream of messages decodes to the first of them, and what it leaves is the beginning of the others |
| WireStack.TakeFlows | net/PbRpcServer.cc:82-86 | A read of any size from a connection that carries messages hands on the first of them and leaves a connection that carries the others |
| WireStack.PutFlows | net/PbRpcClient.cc:46-50 | Writing a message that is neither of 65535 bytes nor beyond `int` adds it to those the connection carries, or throws and adds nothing |
| WireStack.RpcMsgSerializeHandler.Read | protobufCoder/RpcMsgSerializeHandler.cc:9-20 | Hands on what parsing the bytes into a fresh message leaves, whether or not the parse succeeds |
| WireStack.RpcMsgSerializeHandler.Write | protobufCoder/RpcMsgSerializeHandler.cc:40-51 | Writes the wire form of every message, initialized or not, and an empty buffer when its size does not fit `int` |
| WireStack.PipelineRead | net/PbRpcServer.cc:82-86 | One read of the receiving pipeline hands on the messages of the frames completed by it, in order, and keeps the rest |
| ServerDispatcher.SerialServerDispatcher.Read | net/ServiceDispatcher/ServerDispatcher.h:37-40 | Writes the response of each request in turn |
| ServerDispatcher.RunSerial | net/ServiceDispatcher/ServerDispatcher.h:37-40 | Over any requests the serial dispatcher writes one response per request, in request order |
| ServerDispatcher.PipelinedServerDispatcher.Read | net/ServiceDispatcher/ServerDispatcher.h:60-63 | Hands out the counter's value and advances it, wrapping at 2^32 |
| ServerDispatcher.PipelinedServerDispatcher.OnResponse | net/ServiceDispatcher/ServerDispatcher.h:64-67 | Buffers the response under its id and drains, with the whole new state and output |
| ServerDispatcher.PipelinedServerDispatcher.SendResponses | net/ServiceDispatcher/ServerDispatcher.h:70-79 | The loop terminates by the size of the buffer and writes every response that is next in order |
| ServerDispatcher.IdClosedForm | net/ServiceDispatcher/ServerDispatcher.h:62 | The id of the request at position n is n+1 modulo 2^32 |
| ServerDispatcher.IdsDistinct | net/ServiceDispatcher/ServerDispatcher.h:83-85 | Ids are distinct within any window of 2^32 requests |
| ServerDispatcher.DrainOrdered | net/ServiceDispatcher/ServerDispatcher.h:70-79 | Draining an ordered buffer stops exactly at the first request that has not completed, with the rest still buffered |
| ServerDispatcher.RunOrdered | net/ServiceDispatcher/ServerDispatcher.h:60-79 | The ordering invariant holds in every state of every run |
| ServerDispatcher.PipelinedRefinesSerial | net/ServiceDispatcher/ServerDispatcher.h:60-79 | In every run, for every completion order and over any number of wrap-arounds, the output is the longest fully completed prefix of the serial output, and exactly the other completed responses are buffered |
| ServerDispatcher.PipelinedCompletes | net/ServiceDispatcher/ServerDispatcher.h:60-79 | When all requests have completed, the whole serial output is written and the buffer is empty |
| ServerDispatcher.OneMoreBreaksOrder | net/ServiceDispatcher/ServerDispatcher.h:83-85 | With 2^32 + 1 requests outstanding the last one, if it completes first, is answered first, and the output differs from the serial one if the two responses do |
| ClientDispatcher.MultiplexClientDispatcher.OnCheckLimit | net/ServiceDispatcher/ClientDispatcher.h:81-88 | The call goes on if fewer requests are pending than the limit and is rejected otherwise, with the whole new state |
| ClientDispatcher.MultiplexClientDispatcher.OnInsert | net/ServiceDispatcher/ClientDispatcher.h:91-100 | The promise is entered if the id is free; otherwise the call is rejected and the map unchanged |
| ClientDispatcher.MultiplexClientDispatcher.OnWrite | net/ServiceDispatcher/ClientDispatcher.h:110 | Writes the call's own request; if the prepender throws, the call ends with its entry still in the map |
| ClientDispatcher.MultiplexClientDispatcher.OnArm | net/ServiceDispatcher/ClientDispatcher.h:124-137 | Starts the timer, or resolves the call at once when its promise is already set |
| ClientDispatcher.MultiplexClientDispatcher.OnTimeout | net/ServiceDispatcher/ClientDispatcher.h:125-137 | Erases the entry under the call's id and resolves the call as timed out |
| ClientDispatcher.MultiplexClientDispatcher.OnFind | net/ServiceDispatcher/ClientDispatcher.h:47-56 | Takes the promise under the response's id, or drops the response and changes nothing |
| ClientDispatcher.MultiplexClientDispatcher.OnErase | net/ServiceDispatcher/ClientDispatcher.h:57 | Erases the entry under the response's id |
| ClientDispatcher.MultiplexClientDispatcher.OnSetValue | net/ServiceDispatcher/ClientDispatcher.h:58 | Sets the promise; the caller sees the value unless its timer was faster |
| ClientDispatcher.MultiplexClientDispatcher.Invoke | net/ServiceDispatcher/ClientDispatcher.h:76-138 | A call nobody interferes with is rejected by the limit, rejected as duplicate, ends by exception with its entry in the map, or is sent, entered and armed, and keeps the limit |
| ClientDispatcher.MultiplexClientDispatcher.Read | net/ServiceDispatcher/ClientDispatcher.h:44-59 | A response nobody interferes with completes the call under its id and removes the entry, or changes nothing |
| Multiplexing.StepMatched | net/ServiceDispatcher/ClientDispatcher.h:44-138 | Every step, as long as no request and no answer has 65535 bytes, keeps the bytes under way those of requests and right answers, and every promise matched to a request with its id |
| Multiplexing.RunMatched | net/ServiceDispatcher/ClientDispatcher.h:44-138 | So this holds in every state of every run with such requests and answers |
| Multiplexing.OwnAnswer | net/ServiceDispatcher/ClientDispatcher.h:44-138 | In every run, with unique ids and no request or answer of 65535 bytes or beyond `int`, an answered call has what the server computes for its own service, method and payload |
| Multiplexing.WorkersFindMethods | net/PbRpcServer.cc:171-180 | In every run whose calls all name registered methods, every request that a worker gets names one too, so the handler finds service and method |
| Multiplexing.RegisteredAnswer | net/PbRpcServer.cc:171-191 | In such runs, over any history of registrations and lookups, the answer has exactly type 2, the request's id, service id and method id, error 0, and the result of the indexed method of the last service registered under the service id, run on the call's payload |
| Conservation.ExactlyOnce | net/ServiceDispatcher/ServerDispatcher.h:104-110 | In every run with no request or answer of 65535 bytes or beyond `int`: the requests sent are, as a multiset, those served, those with workers and those under way; and the answers that can be written are, in the order in which workers finished, those delivered, those of the last read and those under way |
| CallOutcomes.RunTracked | net/ServiceDispatcher/ClientDispatcher.h:56-137 | In every run each pending entry has a live owner or belongs to a write that threw, the reader's promise is unset and unreachable for others, and outcomes and promises agree |
| CallOutcomes.OnlyFailedWritesLeak | net/ServiceDispatcher/ClientDispatcher.h:110-137 | In every run each entry belongs to a call inside `operator()`, to one with its timer running, or to one whose write threw |
| CallOutcomes.WriteFailsExactlyWhen | net/ServiceDispatcher/ClientDispatcher.h:110 | In every run a call that got its entry and has left `operator()` did so by exception if and only if its request does not fit |
| CallOutcomes.LeakedExactly | net/ServiceDispatcher/ClientDispatcher.h:91-137 | In every run, with unique ids and no request or answer of 65535 bytes, the entries of writes that threw stay for good; with every call resolved or thrown they are all there is, and the map is empty if and only if there was none |
| CallOutcomes.LeakFreeExactlyWhen | net/ServiceDispatcher/ClientDispatcher.h:81-137 | In every such run, with every call resolved or thrown, the map is empty if and only if every request that was not turned away by the limit fits |
| CallOutcomes.LeaksUseUpLimit | net/ServiceDispatcher/ClientDispatcher.h:81-88 | They are as many entries as there were such writes, and once they reach the limit every further call is rejected |
| CallOutcomes.OneOutcome | net/ServiceDispatcher/ClientDispatcher.h:56-58 | In every run outcomes and promises never change once set, and the reader never sets a promise twice |
| CallOutcomes.FutureYields | net/ServiceDispatcher/ClientDispatcher.h:81-137 | In every run the future of an answered call yields the response that was set; of a timed-out, limit-rejected or duplicate call a message with just type 2, the request's id and error 6, 7 or 4; and of others nothing |
| CallOutcomes.AnsweredFutureYields | net/ServiceDispatcher/ClientDispatcher.h:56-58 | In every run, with unique ids and no request or answer of 65535 bytes, an answered call's future yields exactly the handler's result for its own service, method and payload under its own id, service and method, without an error |
| CallOutcomes.LateResponseIsDropped | net/ServiceDispatcher/ClientDispatcher.h:47-54 | In every run, with unique ids, a response for a call that was answered, timed out or rejected leaves the dispatcher unchanged |
| CallOutcomes.NoDuplicateWithUniqueIds | net/ServiceDispatcher/ClientDispatcher.h:91-100 | In every run, with unique ids, no call is rejected as a duplicate |
| CallOutcomes.Accounting | net/ServiceDispatcher/ClientDispatcher.h:76-138 | In every run the calls issued are the unresolved, answered, timed-out, limit-rejected, duplicate-rejected and thrown ones together, the timed-out ones are as many as the timers that fired, and the thrown ones as the writes that threw |
| PendingLimit.PendingBound | net/ServiceDispatcher/ClientDispatcher.h:81-91 | In every run at most limit + callers - 1 entries are pending; with one caller the limit holds; with limit zero there is never one |
| PendingLimit.PendingBoundReached | net/ServiceDispatcher/ClientDispatcher.h:81-91 | For every positive limit and number of callers, together at most 2^63, some run reaches that bound |
| SharedIds.SharedIdsConfuse | net/PbRpcClient.cc:157-190 | For any two requests with one id that can be delivered some run answers the second call with the first one's result |
| SharedIds.OwnAnswersExactlyWhen | net/PbRpcClient.cc:157-190 | For a given server and requests none of which, nor its answer, has 65535 bytes: all runs give every answered call its own answer if and only if no two requests that fit share an id while the first has a deliverable answer that is not the second's |
| SharedIds.OwnAnswersForAllServers | net/PbRpcClient.cc:157-190 | For every server without answers of 65535 bytes this holds if and only if no two requests that fit share an id and differ in service, method or payload |
| Oversize.HeaderIsDropped | codec/LengthFieldBasedFrameDecoder.cpp:68-76 | Of a message of 65535 bytes whose length is read on its own just the length is discarded |
| Oversize.RestIsAFrame | codec/LengthFieldBasedFrameDecoder.cpp:54-97 | Its beginning is then delivered as a message of the same call with a piece of the payload |
| Oversize.AnswerIsCutOff | protobufCoder/RpcMsgSerializeHandler.cc:9-20 | For every delivered request with an answer of 65535 bytes some run gives the caller a proper beginning of the result, under its own id and without an error |
| Oversize.SharpServer | codec/LengthFieldPrepender.cpp:67-70 | Every request has an answer of that size from some server |
| Oversize.RequestIsCutOff | protobufCoder/RpcMsgSerializeHandler.cc:9-20 | For every request of 65535 bytes that a proxy or channel makes some run has the server execute the call with a proper beginning of the payload |
| Oversize.CutRequestIsAnswered | net/PbRpcServer.cc:171-191 | And the caller gets the answer to that |
| Oversize.OwnAnswersExactlyWhenSized | protobufCoder/RpcMsgSerializeHandler.cc:9-20 | For a given server and requests none of which has 65535 bytes: all runs give every answered call its own answer if and only if no request that fits has an answer of 65535 bytes and no two requests can be confused |
| Oversize.SharpRequestIsWrong | protobufCoder/RpcMsgSerializeHandler.cc:9-20 | A request of 65535 bytes that a proxy or channel makes breaks this for every server whose answer to its cut-off form can be delivered and differs from its own |
| Oversize.OwnAnswersForAllServersSized | net/futureRpcCallProxy.h:66-77 | For the requests that proxies and channels make and every server without answers of 65535 bytes: if and only if no request has 65535 bytes and the ids tell apart the requests that fit |
| Oversize.OversizeRequestThrows | net/ServiceDispatcher/ClientDispatcher.h:91-110 | For every request that does not fit some run leaves its entry in the map and its call gone by exception |
| RpcServer.KeysDistinct | net/PbRpcServer.h:92-93 | The conversion of ids to signed keys merges no two ids |
| RpcServer.RegistryAgrees | net/PbRpcServer.cc:102-137 | After any registrations and lookups each id has the entry of the last service registered under it, its own descriptors at its own indices and null elsewhere, and the service itself if it has methods |
| RpcServer.LookupsAreHarmless | net/PbRpcServer.cc:158-167 | An inserting lookup, present or absent, does not change what any id and method resolve to |
| RpcServer.RegisteredIsFound | net/PbRpcServer.cc:158-167 | Every valid method of the last service registered under an id is found |
| RpcServer.PbRpcServer.RegisterService | net/PbRpcServer.cc:102-137 | The loop builds the table of all methods by index and replaces the entry of the service's id; without methods the entry's pointer is whatever it happened to hold |
| RpcServer.PbRpcServer.GetService | net/PbRpcServer.cc:158-161 | Returns the entry's service, inserting a null entry when there is none |
| RpcServer.PbRpcServer.GetMethod | net/PbRpcServer.cc:164-167 | Returns the method's entry, inserting null entries where there are none |
| RpcServer.PbRpcServer.HandleRpcCall | net/PbRpcServer.cc:171-191 | Leaves the table as it is and fills an empty response with type 2, the request's id, service id and method id, error 0 and the registered method's result on the request's payload, and nothing else |
| RpcServer.MultiplexServerDispatcher.Read | net/ServiceDispatcher/ServerDispatcher.h:104-110 | A worker writes exactly the frame of the response computed for its request from the table, or nothing when the prepender throws |
| FutureProxy.FutureRpcCallProxy.AddRemoteHost | net/futureRpcCallProxy.cc:41-54 | Appends a client with a fresh dispatcher of its own and keeps the others |
| FutureProxy.FutureRpcCallProxy.FindMethodByName | net/futureRpcCallProxy.h:42-50 | The first method of that name, or none exactly when there is none |
| FutureProxy.FutureRpcCallProxy.SelectHost | net/futureRpcCallProxy.h:81-95 | The host of the strategy, always an existing one |
| FutureProxy.FutureRpcCallProxy.CallMethod | net/futureRpcCallProxy.h:38-95 | Fails without using up an id when method or host is missing; otherwise submits, to the host of the strategy, a request with type 1, the counter's id, the service's hash, the first index of the method's name and the payload, and nothing else |
| FutureProxy.FutureRpcCallProxy.CallInTurn | net/futureRpcCallProxy.cc:79-93 | Under HASH all calls of one method made with the same hosts go to one host, whatever their ids and payloads |
| FutureProxy.CounterFollowsDraws | net/futureRpcCallProxy.h:68 | The counter field runs through the ids of the draws, over its wrap-around too |
| FutureProxy.SubmissionMoves | net/futureRpcCallProxy.h:66-110 | What `CallMethod` submits is a draw of the counter's id followed by the dispatch of its request at the selected host, both moves of the proxy's runs, and leaves the counter at the next draw |
| FutureProxy.DrawsDistinct | net/futureRpcCallProxy.h:68 | Two draws have the same id if and only if they are a multiple of 2^64 apart |
| FutureProxy.ProxySound | net/futureRpcCallProxy.cc:41-54 | In every run of the proxy with up to 2^64 draws each host's dispatcher is in a reachable state and its ids are unique, whenever hosts are added |
| FutureProxy.ResultExactly | net/futureRpcCallProxy.h:113-141 | The promise gets a value if and only if the message's error is 0 or absent, and then the message's response; the limit, timeout and invalid-request exceptions if and only if it is 7, 6 and 4; and the general one for the other codes |
| FutureProxy.ProxyResults | net/futureRpcCallProxy.h:113-143 | In every such run, with no request or answer of 65535 bytes or beyond `int` at the host: an answered call gives the server's result for its own service, method and payload, a timed-out one exactly the timeout and a limit-rejected one exactly the pending limit, each from a message with its own id; none is a duplicate; and a write that threw had a request that does not fit |
| FutureProxy.PlainIndex | net/futureRpcCallProxy.cc:70 | The index is the draw modulo the hosts, although the id turns negative half way, for up to 2^64 draws, and for any number if the hosts divide 2^64 |
| FutureProxy.RoundRobinBalance | net/futureRpcCallProxy.cc:67-71 | Over any k consecutive draws, before the counter goes round or if the hosts divide 2^64, each of n hosts is chosen floor(k/n) or ceil(k/n) times |
| FutureProxy.AcrossTheWrap | net/futureRpcCallProxy.cc:67-71 | Of the r draws on each side of the wrap, r being 2^64 modulo the hosts, the first r hosts get two each and the others none |
| FutureProxy.BalancedExactlyWhen | net/futureRpcCallProxy.cc:67-71 | All blocks of draws are balanced if and only if the number of hosts divides 2^64 |
| FutureProxy.BalanceEndsAtWrap | net/futureRpcCallProxy.cc:67-71 | Of three hosts the first is chosen twice in a row where the counter goes round |
| StringUtil.SplitString | util/StringUtil.cc:7-31 | The loop terminates and returns the greedy pieces of the string followed by the pattern |
| StringUtil.SplitInto | util/StringUtil.cc:33-53 | The same pieces are appended to what the vector holds |
| StringUtil.FindIsFirst | util/StringUtil.cc:20 | The position found is an occurrence, none lies before it, and none exists where nothing is found |
| StringUtil.SplitCovers | util/StringUtil.cc:7-31 | The pieces, none containing the pattern, each followed by the pattern, and an end shorter than it make up the string followed by the pattern |
| StringUtil.JoinsBackExactlyWhen | util/StringUtil.cc:7-31 | Joining the pieces gives the string back if and only if that end is empty |
| StringUtil.SplitJoinExactlyWhen | util/StringUtil.cc:7-31 | For a pattern, joining undoes splitting on all strings if and only if no proper non-empty beginning of it is also its end |
| StringUtil.BorderLosesText | util/StringUtil.cc:7-31 | For every pattern with such an overlap, a string that is not restored |
| StringUtil.JoinSplit | util/StringUtil.cc:33-53 | For the other patterns splitting also undoes joining, for all pieces that do not contain the pattern |

## Left out

- Sockets, pipelines, thread pools, connecting and reconnecting, close and end of file: library plumbing. The connection is FIFO per direction and loses no bytes.
- The byte-to-message driver of wangle is not part of the repository; it is taken to call `decode` until it returns false, and to do so again on the next read after an error.
- Chains of buffers are byte sequences. The message handler parses only a buffer's first segment (`protobufCoder/RpcMsgSerializeHandler.cc:12`); a frame is taken to arrive as one segment.
- Operations of the concurrent map, the firing of a timer and the completion of a promise are single steps. Erasing through an iterator removes the entry under its key.
- The executing method is a function of service, method and payload: parsing and serializing the user's messages is inside it.
- RpcMessage.RpcMessage.ByteSizeLong: does not model the cached size, which nothing here reads.
- RpcMessage.RpcMessage.SerializeWithCachedSizes: byte fields are at most 2^31 - 1 bytes long, as the library requires; the presence word is the set of its bits.
- Prepender.LengthFieldPrepender.Write: adding the width to an `int` at the top of its range is taken to wrap; the source leaves it undefined.
- FrameDecoder.LengthFieldBasedFrameDecoder.Decode: for fields of 1, 2, 4 and 8 bytes and queues below 2^63 bytes; for other widths the source uses an uninitialized length. An empty frame is an empty byte sequence.
- WireStack.RpcMsgSerializeHandler.Write: that the library refuses messages beyond the range of `int` and leaves the string empty is its documented limit; its code is not part of this model.
- ServerDispatcher.PipelinedServerDispatcher.OnResponse: one completion is one step, although the source does not synchronize the callbacks of different workers.
- RpcServer.PbRpcServer.HandleRpcCall: the request names a registered service and method; the source follows null pointers otherwise. The handler of a run gives such requests an empty result; `Multiplexing.WorkersFindMethods` says when there are none.
- FutureProxy.FutureRpcCallProxy.CallMethod: not for the strategy RANDOM, whose selector has no body; connecting to the host is left out.
- FutureProxy.FutureRpcCallProxy.SelectHost: the hash is an unknown function, so nothing is said about how the HASH strategy spreads calls.
- StringUtil.SplitString: not for an empty pattern, with which the loop does not end, nor for lengths from 2^31 on, which the `int` size cannot hold.
- StringUtil.SplitInto: the same.
- Arenas, reflection, swap, the experimental parser branch, the example programs with their generated messages, and the network utilities: further instances of the same patterns or no logic of their own.
