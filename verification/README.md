# The message path of the monkey chat server

The repository is a chat server of several Netty nodes. Browser clients speak protobuf
over web sockets; nodes find each other through ZooKeeper, keep a shared directory of
sessions in Redis and forward messages over framed TCP streams. This project models three
parts of it in Dafny and proves what they are for.

**The wire codec of the client** (`js/bundle.js`, driven by `proto/Message_pb.js`).
Number kernels (`JsNumbers`, `UInt64s`, `Decimal`, `Split64`, `Hash64s`, `LittleEndians`,
`BufferInts`), text (`Unicode`, `StringCodecs`, `BufferText`), base64 (`Base64`,
`Base64Js`, `Base64Bits`), varints (`Varints`), the encoder and the block-list writer (`Encoder`,
`Writer`), the cursor-based reader (`Reader`, `FieldReader`), the two messages (`Wire`,
`Records`, `Messages`, `WireFormat`) and the course of a parse turn by turn (`ParseRuns`). Classes and
loops keep the source's form and are proved against specification functions; the laws are
lemmas about those functions. Where a law is a round trip, others beside it say with literal
numbers and tables what is in between: `Base64Bits`, `WireFormat` and the lemmas called
`...Layout`. The format is that of the Protocol Buffers "Encoding"
specification, sections "Base 128 Varints" and "Message Structure".

**The server's side of the stream.** `ServerModels` is the generated Java class of the same
message, `Interwork` compares client and server on the same bytes, `Framing` is the frame
codec between nodes.

**The cluster.** `Nodes` and `Routers` hold node paths, load counters and the table of peer
senders; `Directories` and `Sessions` the shared directory and a node's session manager;
`Cluster` runs any number of nodes over one directory; `Delivery` and `Dispatch` follow one
message through it. `Outcomes` and `Pigeonholes` are shared.

JavaScript numbers are mathematical integers, with explicit bounds below 2^53 where the
code relies on exactness, and bit operations are division and remainder by powers of two.
Assertions of the Closure library are on in the bundle, so a failed one is an exception
(`Throws`). Redis, ZooKeeper, JSON and the network are a shared map, parameters and lists of
what was sent; each `add`, `remove`, lookup and event is one atomic step.

Where the code does something other than its names or a first reading suggest, the model
follows the code and the theorem says exactly when the expected law holds. A lemma named in
brackets gives an input that shows the point; the other points hold for every input:

- Skipping a field whose length reads as a negative number moves the cursor back, and eleven
  bytes suffice for a parse that never ends (`ElevenBytesForEver`). A parse ends if and only if
  it is never twice at the same cursor with the same groups open.
- `writeString` drops a lead surrogate before a unit that is no trail (`LeadLost`). The round
  trips of strings and messages hold if and only if none is dropped.
- A string the client writes may still hold a lone surrogate, and the server then refuses the
  whole message (`MessageRefused`). It accepts it if and only if no string ends in a lead and
  every trail stands right behind a lead.
- The server writes lone surrogates as question marks (`QuestionMark`), so its own round trip
  holds if and only if all strings are well-formed.
- `getResultBuffer` leaves `totalLength_` unchanged, so a second call succeeds only if the
  first one found an empty buffer.
- `toByteArray` throws on padding in first place and leaves zero bytes behind for a group of
  padding only (`PaddingOnlyGroup`). The array is filled if and only if the first padding
  character starts no group.
- After an exception the frame decoder goes on with the next read from where it stands, so
  the outcome may depend on how the bytes are cut (`SixZeros`). It does not if and only if
  nothing is left to decode behind the exception.
- The third failure of a connection attempt is taken for a success.
- The guards of `removeRemoteSession` and `addRemoteSession` compare an id with map values
  and never fire; the first never removes, the second always overwrites. Notifications do
  not reach the map, and the cache is sound without them.
- A message forwarded to the home of k sessions is written k times to each, because every
  copy is looked up again there; with sessions on two linked nodes it is forwarded for ever
  (`EndlessForwarding`). It comes to rest if and only if no circle of linked homes can be
  reached.

## Model

| member | source | states |
|---|---|---|
| Varints.EncodeLength | js/bundle.js:3082-3084 | an encoding takes at most k bytes exactly if the number is below 128^k |
| Varints.ReadsBack32 | js/bundle.js:2985 | a uint32 written as a varint is read back as itself, using exactly its bytes, whatever follows |
| Varints.ReadsBack64 | js/bundle.js:2982 | a 64-bit number written as a varint is read back, using exactly its bytes, at most ten |
| Varints.SignedReadsBack | js/bundle.js:2985-2986 | a sign-extended int32 is read back as itself by the 32-bit reader and as its two's complement by the 64-bit reader, both using all its bytes, ten if it is negative |
| Varints.PrefixFree | js/bundle.js:3082-3084 | no encoding is a proper prefix of another, so concatenated varints split in one way only |
| WireFormat.VarintLayout | js/bundle.js:3082-3084 | the k-th byte carries the k-th seven bits, all bytes but the last have 128 added, and the last is zero for the number zero alone |
| WireFormat.ReadLayout | js/bundle.js:2982-2986 | on any input, shortest encoding or not: the seven bits of the bytes up to the first one below 128 add up, modulo 2^64, or modulo 2^32 and signed from the sixth byte on; more than ten bytes throw |
| WireFormat.EndlessVarint | js/bundle.js:2982-2986 | bytes that all have the top bit set throw |
| WireFormat.SignedLayout | js/bundle.js:3085 | a negative int32 is written as its 64-bit two's complement, in ten bytes |
| WireFormat.FixedLayout | js/bundle.js:3083-3091 | fixed-width numbers byte by byte, the lowest first |
| Encoder.BinaryEncoder.WriteUnsignedVarint32 | js/bundle.js:3084 | the shifting loop appends exactly the varint of the number |
| Encoder.BinaryEncoder.WriteSplitVarint64 | js/bundle.js:3082 | the loop over two halves appends the varint of the 64-bit number they form |
| Encoder.BinaryEncoder.WriteSignedVarint32 | js/bundle.js:3085 | nine arithmetic shifts and a final 1 are the varint of the number sign-extended to 64 bits |
| Encoder.BinaryEncoder.WriteUint32 | js/bundle.js:3091 | appends the four little-endian digits of the number |
| Encoder.BinaryEncoder.WriteSplitFixed64 | js/bundle.js:3083 | appends four digits of each half, low half first |
| Encoder.BinaryEncoder.WriteString | js/bundle.js:3100-3101 | appends the bytes of the units, dropping a lead surrogate before a unit that is no trail, and returns their number |
| Reader.BinaryDecoder.ReadUnsignedVarint32 | js/bundle.js:2985-2986 | returns and consumes what Read32 says for the bytes at the cursor, or throws when there is no complete varint of ten bytes |
| Reader.BinaryDecoder.ReadSplitVarint64 | js/bundle.js:2982 | the two halves it assembles are the low 64 bits of the varint at the cursor, and exactly its bytes are consumed |
| Reader.BinaryDecoder.SkipVarintBytes | js/bundle.js:2983 | moves behind the first byte below 128, or past the end |
| Reader.BinaryDecoder.ReadString | js/bundle.js:2995-2996 | the units pushed across the flushes of 8192 units are those of the reader's specification, and the cursor moves as far |
| Reader.BinaryDecoder.DecodeUnit | js/bundle.js:2995 | one turn of the loop: the units of a lead byte and the bytes taken, with bytes past the end counting as zero bits |
| Reader.BinaryDecoder.ReadBytes | js/bundle.js:2996 | returns exactly the next bytes, or throws without moving when the length is negative or too large |
| Reader.BinaryDecoder.Advance | js/bundle.js:2981 | moves forward within the input and throws beyond its end; a negative step is reported as Backward, the one place where the cursor could go back |
| StringCodecs.ReadUndoesWrite | js/bundle.js:2995-2996 | reading what was written gives the string without the leads that were dropped, using exactly the bytes written, whatever follows |
| StringCodecs.RoundTripIffNoLeadDropped | js/bundle.js:3100-3101 | a string survives writing and reading if and only if no lead surrogate in it stands before a unit that is no trail |
| StringCodecs.LeadLost | js/bundle.js:3100-3101 | an input that fails: the units D800 41 are written as one byte and come back as 41 |
| StringCodecs.KeptAll | js/bundle.js:3100-3101 | the kept units are the whole string if and only if no lead is dropped |
| StringCodecs.WellFormedDropsNothing | js/bundle.js:3100 | well-formed strings lose nothing |
| StringCodecs.EncodersAgree | js/bundle.js:1803-1881 | on well-formed strings the three encoders emit the same bytes, those of section 3 of RFC 3629 |
| Unicode.Utf8Layout | js/bundle.js:1841-1874 | section 3 of RFC 3629 bit by bit: the marks 0, 110, 1110, 11110 and 10, the remaining bits in order, and the shortest form |
| Unicode.Utf16Layout | js/bundle.js:1153-1157 | section 2.1 of RFC 2781 bit by bit: the marks 110110 and 110111 with ten bits each |
| StringCodecs.LoneSurrogates | js/bundle.js:1803-1881 | a lone surrogate is EF BF BD for utf8ToBytes and its own three bytes for the other two encoders |
| StringCodecs.PendingLead | js/bundle.js:1813-1840 | a pending lead surrogate is replaced before any other unit and lost at the end |
| StringCodecs.WriteIsClosureIffNothingDropped | js/bundle.js:2743 | writeString emits what stringToUtf8ByteArray emits if and only if no lead is dropped, and never more |
| StringCodecs.SliceUndoesToBytes | js/bundle.js:1091-1185 | decoding undoes utf8ToBytes if and only if the string is well-formed UTF-16 |
| StringCodecs.ToBytesUndoesSlice | js/bundle.js:1091-1185 | encoding undoes utf8Slice if and only if the bytes are valid UTF-8 |
| StringCodecs.SliceWellFormed | js/bundle.js:1091-1160 | whatever the bytes, utf8Slice yields well-formed UTF-16 |
| StringCodecs.SliceStable | js/bundle.js:1091-1185 | decoding, encoding and decoding again is decoding once, for any bytes |
| StringCodecs.ReadersAgree | js/bundle.js:2995 | on valid UTF-8 readString returns what utf8Slice returns |
| StringCodecs.NextPointIsForm | js/bundle.js:1091-1160 | on any bytes utf8Slice takes the code point whose RFC 3629 form stands in front, else one byte as U+FFFD |
| StringCodecs.ReadUnitByFirstByte | js/bundle.js:2995 | what readString makes of any bytes, by the bits of the first: stray bytes dropped, the bytes behind taken unchecked, as zeros past the end |
| StringCodecs.ReadUnitsTurn | js/bundle.js:2995 | a string of length n takes units until n bytes are used, however many more the last one takes |
| StringCodecs.ReadUnitsPastTheEnd | js/bundle.js:2995 | past the end of the input it finds nothing and moves on to the end of the length |
| BufferText.Utf8ToBytes | js/bundle.js:1803-1881 | the loop with a pending lead surrogate and a byte limit emits the longest run of code points that fits, all of them without a limit |
| BufferText.EncodeUnit | js/bundle.js:1810-1878 | one turn of the loop, the four places where the limit ends it included, leads towards those bytes |
| BufferText.FittingIsLongest | js/bundle.js:1818-1876 | what fits is the longest prefix of the code points whose bytes stay within the limit |
| BufferText.UnitPointsBytes | js/bundle.js:1803-1881 | the RFC 3629 bytes of the code points the loop sees are what it emits without a limit |
| BufferText.UnitPointsOfWellFormed | js/bundle.js:1803-1881 | on well-formed strings these code points are the string's own |
| BufferText.Utf8Slice | js/bundle.js:1091-1160 | the loop over lead bytes decodes any window of the buffer, computes its specification and yields well-formed UTF-16 |
| BufferText.TakePoint | js/bundle.js:1096-1151 | one turn of the loop finds the next code point of the window and its length, the replacement character where the bytes are bad or cut off by the end |
| BufferText.DecodeAt | js/bundle.js:1104-1143 | a code point found by the switch is the next one of the specification, with its length; none is found only where that takes a replacement and one byte |
| BufferText.DecodeCodePointsArray | js/bundle.js:1169-1185 | joining slices of 0x1000 units gives all units in order |
| BufferText.StringToUtf8ByteArray | js/bundle.js:2743 | the loop computes its specification, and the RFC 3629 bytes on well-formed strings |
| Wire.ReadsTag | js/bundle.js:3003-3004 | a written field header is read back as its number and wire type |
| WireFormat.HeaderLayout | js/bundle.js:2705 | a header is the varint of eight times the field number plus 0 to 5; the wire types 6 and 7 throw |
| WireFormat.AnyHeader | js/bundle.js:3003-3004 | the header on any input: the low three bits are the wire type, the others the number |
| WireFormat.FieldLayout | js/bundle.js:3108-3125 | each kind of serialized field by its number: headers 8n, 8n + 1, 8n + 2 and 8n + 5, and groups between 8n + 3 and 8n + 4 |
| Wire.SkipsField | js/bundle.js:3008 | skipping a serialized field of any wire type consumes exactly its payload |
| Wire.SkipsGroup | js/bundle.js:3007-3008 | skipping a group with arbitrarily nested fields consumes everything up to and including its own end tag |
| WireFormat.SkipLayout | js/bundle.js:3008 | how far a field of wire type 0, 1, 4 and 5 is skipped on any input, one past the end for a varint cut off, and where that throws |
| WireFormat.SkipsAnyLength | js/bundle.js:3008 | a length in any encoding is skipped with as many bytes, throws if they are not there, and steps back if it is negative |
| WireFormat.SkipGroupEnds | js/bundle.js:3007-3008 | a group ends at the header 8n + 4; the end of another group or of the input throws |
| Wire.NextFieldTheSame | js/bundle.js:3003-3004 | a header that was read is read the same whatever bytes follow, shortest varints or not |
| Wire.SkipFieldTheSame | js/bundle.js:3007-3008 | a field that was skipped within the input is skipped the same whatever bytes follow |
| Writer.BinaryWriter.BeginDelimited | js/bundle.js:3102 | ends the block behind the header and pushes the total so far on it |
| Writer.BinaryWriter.EndDelimited | js/bundle.js:3102 | replaces the pushed total by the varint of the number of bytes written since, and counts its bytes |
| Writer.BinaryWriter.ClosedDelimited | js/bundle.js:3102 | the blocks between opening and closing a bookmark are then the header, the length of the body and the body |
| Writer.BinaryWriter.WroteBoth | js/bundle.js:3101-3105 | writes compose: two writes in a row have written the concatenation, with the totals in step |
| Writer.BinaryWriter.WriteString | js/bundle.js:3121 | writes the recursive serializer's bytes through a bookmark |
| Writer.BinaryWriter.WriteBytes | js/bundle.js:3121 | writes the recursive serializer's bytes as two blocks |
| Writer.BinaryWriter.WriteMessage | js/bundle.js:3121 | writes the recursive serializer's bytes of a submessage, its length prefix patched in afterwards |
| Writer.BinaryWriter.WriteGroup | js/bundle.js:3123 | writes the fields between the two tags of the group |
| Writer.BinaryWriter.WriteField | js/bundle.js:3108-3125 | any valid field tree flattens to the bytes of the recursive serializer, the total counting the closed blocks |
| Writer.BinaryWriter.WriteFields | js/bundle.js:3101-3125 | the same for a list of fields |
| Writer.BinaryWriter.BeginSubMessage | js/bundle.js:3105 | pushes a bookmark on the block it has just ended |
| Writer.BinaryWriter.EndSubMessage | js/bundle.js:3105 | pops the last bookmark and patches the length of what was written since into its block; throws when there is none |
| Writer.BinaryWriter.GetResultBuffer | js/bundle.js:3104 | returns the blocks and the buffer in one array if no bookmark is open and the total is the blocks' length, else throws; a second call succeeds exactly if the buffer was empty at the first |
| Writer.SerializeTree | js/bundle.js:3101-3125 | a fresh writer turns every tree of fields under 2^32 bytes into exactly the bytes of the recursive serializer |
| FieldReader.BinaryReader.NextField | js/bundle.js:3003-3004 | at the end false, past it an exception, else the header at the cursor is read and consumed or an exception thrown |
| FieldReader.BinaryReader.SkipField | js/bundle.js:3008 | consumes exactly what the specification says of the rest of the input, or throws when it does, up to the first skipped field with a negative length |
| FieldReader.BinaryReader.SkipGroup | js/bundle.js:3007 | the mutual recursion with skipField consumes the group as specified, or throws on a wrong or missing end tag, up to the first skipped field with a negative length |
| FieldReader.BinaryReader.ReadEnum | js/bundle.js:3021 | the signed 64-bit varint at the cursor, or an exception on another wire type |
| FieldReader.BinaryReader.ReadUint32 | js/bundle.js:3016 | the 32-bit varint at the cursor, or an exception on another wire type |
| FieldReader.BinaryReader.ReadString | js/bundle.js:3022 | a length and as many bytes of units |
| FieldReader.BinaryReader.ReadBytes | js/bundle.js:3022 | a length and exactly as many bytes |
| Records.ReadsValue | proto/Message_pb.js:129-162 | every written field value is read back, less dropped leads, using exactly its bytes |
| WireFormat.ParseTurn | proto/Message_pb.js:129-162 | one turn of the loop for every field number and each wire type 0 to 7: read under the number, skipped, ended by 4, or an exception |
| WireFormat.WireTypeOfKind | js/bundle.js:3012-3022 | numbers are read under wire type 0 alone, strings and bytes under 2 alone |
| WireFormat.EnumLayout | js/bundle.js:3021 | an enum is the 64-bit two's complement of its varint |
| WireFormat.LengthLayout | js/bundle.js:3016-3022 | what a uint32, a string and bytes are, behind any length or varint |
| Records.ParsesRecords | proto/Message_pb.js:129-162 | parsing known fields and unknown ones in any encoding the reader accepts, in any order, ends at the end of the input with the last value of each known field |
| Records.ParsesUnknown | proto/Message_pb.js:129-162 | a complete field of an unknown number, in whatever encoding the reader accepts, changes neither the message nor the parse of what follows |
| Records.TreeIsUnknownField | js/bundle.js:3007-3008 | every serialized field tree of an unknown number, nested groups included, is such a field |
| WireFormat.UnknownLayout | proto/Message_pb.js:155-157 | an unknown field under header 8n, 8n + 1, 8n + 2 or 8n + 5, whatever bytes it holds, is passed over |
| WireFormat.UnknownGroupLayout | proto/Message_pb.js:155-157 | and so is a group between 8n + 3 and 8n + 4 |
| WireFormat.CutOffVarint | proto/Message_pb.js:155-157 | an unknown varint cut off by the end of the input throws |
| WireFormat.Fixed32BeforeRecipient | proto/Message_pb.js:129-162 | for instance 35 01 02 03 04 1A 01 62 is read as the message to "b" |
| Records.ParsesMessage | proto/Message_pb.js:129-220 | parsing a serialized message gives what survives of every field and uses up the input |
| Records.RoundTripIff | proto/Message_pb.js:403-494 | parsing undoes serializing, for any schema, if and only if no string drops a lead surrogate |
| Records.UnknownFieldsIgnored | proto/Message_pb.js:129-162 | unknown fields of all wire types, nested groups included, in any encoding the reader accepts and put anywhere between the fields, do not change the parsed message |
| Records.ConcatenationIsMerge | proto/Message_pb.js:129-220 | parsing two serialized messages one after the other gives, field by field, the second value unless it is the default, else the first |
| Messages.Model.SerializeBinaryToWriter | proto/Message_pb.js:183-220 | the sequential writes append exactly the message's non-default fields in order |
| Messages.Model.SerializeBinary | proto/Message_pb.js:169-173 | always succeeds, with the message's bytes |
| WireFormat.ModelWrites | proto/Message_pb.js:183-220 | the bytes of a message by its fields: cmd under 08, from 12, to 1A, groupid 22, content 2A, in this order, empty ones left out |
| WireFormat.FieldsByNumber | proto/Message_pb.js:135-154 | which field of each message stands for which number |
| Messages.Model.DeserializeBinaryFromReader | proto/Message_pb.js:129-162 | the loop and its switch compute ParseFrom of the input, exceptions included; where that is Backward they stop at the first skipped field with a negative length |
| Messages.DeserializeModelBinary | proto/Message_pb.js:115-119 | a fresh message with the fields ParseFrom gives, an exception, or Backward as above |
| Messages.ModelRoundTrip | proto/Message_pb.js:115-173 | serializing and deserializing gives the message back if and only if its strings drop no lead |
| Messages.MessageBody.SerializeBinaryToWriter | proto/Message_pb.js:457-494 | the same for the message body, whose fourth field is a uint32 |
| Messages.MessageBody.SerializeBinary | proto/Message_pb.js:443-447 | always succeeds, with the body's bytes |
| WireFormat.BodyWrites | proto/Message_pb.js:457-494 | the bytes of a body by its fields: title under 0A, content 12, time 1A, kind 20, extend 2A |
| Messages.MessageBody.DeserializeBinaryFromReader | proto/Message_pb.js:403-436 | the loop and its switch compute ParseFrom of the input, exceptions included; where that is Backward they stop at the first skipped field with a negative length |
| Messages.DeserializeMessageBodyBinary | proto/Message_pb.js:389-393 | a fresh body with the fields ParseFrom gives, an exception, or Backward as above |
| Messages.MessageBodyRoundTrip | proto/Message_pb.js:389-447 | serializing and deserializing gives the body back if and only if its strings drop no lead |
| ParseRuns.ParseEndsOrStepsBack | proto/Message_pb.js:129-162 | turn by turn, steps back included, the parse of any input ends with the result of ParseFrom, or, exactly where that is Backward, comes to a skipped field with a negative length; only a call stack for fewer groups than the input has bytes may be exhausted before |
| ParseRuns.ParsesForward | js/bundle.js:2981-2986 | an input in which no header of a delimited field stands before a varint that reads as negative never steps back |
| ParseRuns.EndsIffNothingRecurs | proto/Message_pb.js:129-162 | for any input and call stack the parse ends if and only if it is never twice at the same cursor with the same groups open, and then within as many turns as there are such places |
| ParseRuns.RecurrenceGoesOn | proto/Message_pb.js:129-162 | once back at the same cursor with the same groups open, whatever the message by then, the parse goes on for ever |
| ParseRuns.ReadForEver | js/bundle.js:3008 | a skipped field whose length leads back to its own first byte is read for ever |
| ParseRuns.ElevenBytesForEver | js/bundle.js:2981-2986 | an input that fails: the byte 7A and the varint of -11 are never read to an end by either message |
| ParseRuns.StepBackMayEnd | js/bundle.js:2981-2986 | a step back alone decides nothing: an input of 19 bytes that steps back and is read to its end |
| ServerModels.ServerModel.Parse | src/main/java/com/thought/monkey/wsmessage/MessageInfo.java:317-376 | the loop over whole tags computes the specified parse of any input, failing exactly when it throws |
| ServerModels.ServerModel.WriteTo | src/main/java/com/thought/monkey/wsmessage/MessageInfo.java:588-606 | appends the non-default fields in order, strings in Java's UTF-8 |
| WireFormat.ServerWrites | src/main/java/com/thought/monkey/wsmessage/MessageInfo.java:588-606 | the server's bytes by its fields, under the same five headers |
| WireFormat.ServerReads | src/main/java/com/thought/monkey/wsmessage/MessageInfo.java:317-376 | the varints the server reads on any input: the low 32 bits, signed, of at most ten bytes |
| WireFormat.ServerReadsString | src/main/java/com/thought/monkey/wsmessage/MessageInfo.java:341-358 | a string is taken if and only if its length fits and its bytes are valid UTF-8 |
| WireFormat.ServerTurn | src/main/java/com/thought/monkey/wsmessage/MessageInfo.java:328-371 | one turn of the switch by the tag: 08, 12, 1A, 22 and 2A set their fields, field number 0 and the end of a group fail, all else is unknown |
| ServerModels.StringReadsBack | src/main/java/com/thought/monkey/wsmessage/MessageInfo.java:341-358 | a string the server wrote is read back with a question mark for every lone surrogate |
| ServerModels.QuestionMark | src/main/java/com/thought/monkey/wsmessage/MessageInfo.java:588-606 | an input that shows it: a lone lead is written as the byte of a question mark |
| ServerModels.ServerRoundTrip | src/main/java/com/thought/monkey/wsmessage/MessageInfo.java:317-376 | the server reads back the message it wrote if and only if all strings are well-formed |
| ServerModels.ServerConcatenationIsMerge | src/main/java/com/thought/monkey/wsmessage/MessageInfo.java:317-376 | two messages written one after the other are parsed as what mergeFrom makes of them |
| ServerModels.MergeFrom | src/main/java/com/thought/monkey/wsmessage/MessageInfo.java:896-919 | the builder's fields become the merge of its own and the other message's |
| Interwork.ClientAndServerAgree | src/main/java/com/thought/monkey/wsmessage/MessageInfo.java:588-606 | client and server write the same bytes for every message with well-formed strings |
| Interwork.ClientAndServerInterwork | src/main/java/com/thought/monkey/wsmessage/MessageInfo.java:317-376 | each reads the other's bytes as the same message |
| Interwork.KeptIsWrittenTheSame | js/bundle.js:3100-3101 | the string without the dropped leads is written as the same bytes |
| Interwork.ClientStringAccepted | src/main/java/com/thought/monkey/wsmessage/MessageInfo.java:341-358 | the server accepts a string the client wrote if and only if its last unit is no lead and every trail stands right behind a lead, and then reads what the client kept |
| Interwork.ServerAcceptsClient | src/main/java/com/thought/monkey/wsmessage/MessageInfo.java:317-376 | the server parses a message the client serialized if and only if every string is of that form, and otherwise throws |
| Interwork.KeptWellFormedIff | js/bundle.js:3100-3101 | what the client keeps of a string is well-formed if and only if the string is of that form |
| Interwork.MessageRefused | src/main/java/com/thought/monkey/wsmessage/MessageInfo.java:341-358 | an input that fails: a message with a lone lead at the end of a string, which the client reads back and the server refuses |
| UInt64s.UInt64.Cmp | js/bundle.js:3074 | compares the 64-bit values |
| UInt64s.UInt64.RightShift | js/bundle.js:3074 | halves the value, rounding down |
| UInt64s.UInt64.LeftShift | js/bundle.js:3074-3075 | doubles the value modulo 2^64 |
| UInt64s.UInt64.Msb | js/bundle.js:3075 | holds exactly for values from 2^63 on |
| UInt64s.UInt64.Add | js/bundle.js:3075-3076 | adds modulo 2^64 |
| UInt64s.UInt64.Sub | js/bundle.js:3076 | subtracts modulo 2^64 |
| UInt64s.Mul32x32 | js/bundle.js:3076-3077 | four 16-bit products with hand-made carries are the exact 64-bit product |
| UInt64s.Mul | js/bundle.js:3077 | multiplies by a 32-bit factor modulo 2^64 |
| UInt64s.AlignDivisor | js/bundle.js:3078 | doubles the divisor until its top bit is set, with the matching quotient bit beside it |
| UInt64s.DivideAligned | js/bundle.js:3078 | shift and subtract down to bit zero: quotient and remainder of the division |
| UInt64s.Div | js/bundle.js:3078 | for every divisor above zero terminates with this = q * a + r and r < a; none for zero |
| UInt64s.ToString | js/bundle.js:3078-3079 | repeated division by ten prints digits alone, with no leading zero, whose places add up to the number |
| UInt64s.FromString | js/bundle.js:3079 | null exactly for strings with a character outside codes 48 to 57, else what the places add up to, modulo 2^64 |
| UInt64s.UnsignedReprint | js/bundle.js:3078-3079 | printing what was parsed gives the string back if and only if it is a canonical numeral below 2^64 |
| UInt64s.Int64ToString | js/bundle.js:3081 | prints the digits of the signed value, -2^63 included, behind a minus sign if it is negative |
| UInt64s.Int64FromString | js/bundle.js:3081 | null exactly for strings that are no digits with at most a minus sign in front, else what the places add up to, negated, modulo 2^64 |
| UInt64s.SignedRoundTrip | js/bundle.js:3081 | every signed 64-bit number survives printing and parsing |
| UInt64s.SignedReprint | js/bundle.js:3081 | printing what Int64 parsed gives the string back if and only if it is canonical, with no sign before zero, and within -2^63 and 2^63 - 1 |
| Decimal.ParseOfDec | js/bundle.js:3078-3079 | parsing undoes printing, and what is printed is canonical |
| Decimal.DecOfParse | js/bundle.js:3078-3079 | printing undoes parsing if and only if the numeral is canonical |
| Decimal.DecSpells | js/bundle.js:3078-3079 | a string is what is printed for n if and only if its codes are 48 to 57, no zero leads it and its places add up to n |
| Decimal.SignedDecSpells | js/bundle.js:3081 | the same for signed numerals |
| Decimal.ParseIsPlaceValue | js/bundle.js:3079 | parsing adds up the places of the digits, code less 48 |
| Split64.SplitMeaning | js/bundle.js:2957 | for any number the halves carried by hand are its integer part modulo 2^64 |
| Split64.TruncatesTowardZero | js/bundle.js:2957 | the integer part is cut towards zero |
| Split64.JoinInt64 | js/bundle.js:2964 | joins two halves to the signed number |
| Split64.SplitJoin | js/bundle.js:2957-2964 | splitting and joining gives back every signed 64-bit number |
| Split64.ZigzagMeaning | js/bundle.js:2964 | the zigzag code of v is 2v, or -2v - 1 for negative v |
| Split64.ZigzagRoundTrip | js/bundle.js:2964 | zigzag coding is undone in both directions on all 64-bit numbers |
| Split64.Base1e7 | js/bundle.js:2967 | the 24/24/16-bit cut with its carries gives the base-10^7 digits of the number, every intermediate at most 2^53 |
| Split64.FastIsSlow | js/bundle.js:2967 | the fast printer gives the decimal numeral, digits whose places add up, as repeated division does, for all 64-bit numbers |
| Split64.FastSignedIsSlow | js/bundle.js:2968 | the fast signed printer gives the signed numeral, a minus sign and digits whose places add up |
| Hash64s.MulAdd | js/bundle.js:2970 | the byte-carry loop, which stops early when nothing is left to carry, multiplies and adds modulo 2^64 |
| Hash64s.Complement | js/bundle.js:2970 | complements all eight bytes |
| Hash64s.DecimalStringToHash64 | js/bundle.js:2969-2970 | the eight bytes are the little-endian form of what the places of the numeral add up to, modulo 2^64 |
| Hash64s.SplitHash64 | js/bundle.js:2963 | splits eight bytes into the two halves of their value |
| Hash64s.ParsersAgree | js/bundle.js:2969-2970 | hash parsing and Int64 parsing give the same number for every signed numeral |
| BufferInts.BorrowedDigit | js/bundle.js:1540-1544 | truncating division less the running borrow is the two's complement digit |
| BufferInts.WriteIntLE | js/bundle.js:1526-1547 | writes the two's complement digits and nothing else, or throws and leaves the buffer alone |
| BufferInts.WriteIntBE | js/bundle.js:1549-1570 | writes the reverse of what the little-endian form writes |
| BufferInts.ReadIntLE | js/bundle.js:1333-1349 | reads the two's complement number of the bytes, or throws outside the buffer |
| BufferInts.ReadIntBE | js/bundle.js:1351-1367 | reads the number of the reversed bytes |
| BufferInts.SignedOfDigits | js/bundle.js:1333-1367 | every integer in range is the two's complement reading of its digits |
| BufferInts.WhatIsWritten | js/bundle.js:1526-1533 | for one to six bytes, which values and offsets are accepted, by their bounds |
| BufferInts.WhatIsRead | js/bundle.js:1333-1367 | what the places of the bytes add up to, less a power of 256 if the top bit is set |
| BufferInts.DigitsAreBytes | js/bundle.js:1526-1547 | each byte written is the number divided by the power of 256 of its place, floored, modulo 256 |
| BufferInts.RoundTrip | js/bundle.js:1526-1570 | writing and reading gives every integer of one to six bytes back, in both byte orders |
| Base64.EncodeByteArray | js/bundle.js:2952 | the loop computes the base64 string of the bytes in any of the five alphabets |
| Base64.DecodeStringInternal | js/bundle.js:2956-2957 | the loop with its skipping of white space and defaults at the end computes the specified bytes of any string, or throws |
| Base64.CodeOfCharOf | js/bundle.js:2957 | one table decodes the characters of all five alphabets |
| Base64.DecodeUndoesEncode | js/bundle.js:2952-2957 | decoding undoes encoding in all five alphabets, padded or not |
| Base64Bits.CharOfIsTable | js/bundle.js:2949 | in each alphabet, position n of the tables of sections 4 and 5 of RFC 4648, written out, and the padding =, . or none |
| Base64Bits.CodeOfIsTable | js/bundle.js:2957 | a character is decoded as n if and only if it is at position n of one of the two tables, and as padding if and only if it is = or . |
| Base64Bits.RevIsTable | js/bundle.js:10-21 | the same for base64-js, where every other character counts as zero |
| Base64Bits.EncodedIsSixBits | js/bundle.js:2952 | for any bytes the k-th character is the table's at the k-th six bits of the input, and padding fills the last four |
| Base64Bits.SafeCharacters | js/bundle.js:2949 | web-safe output has no + or /, other output no - or _ |
| Base64Bits.DecodedIsBits | js/bundle.js:2956-2957 | any string of table characters decodes to the eight-bit groups of their numbers |
| Base64Bits.UnquadLayout | js/bundle.js:2957 | four numbers to at most three bytes, padding in any place included |
| Base64Bits.SpacesAreSkipped | js/bundle.js:2956 | white space does not matter, wherever it stands |
| Base64Bits.SpaceIsListed | js/bundle.js:2956 | and is exactly the characters of these codes |
| Base64Js.FromByteArray | js/bundle.js:120-151 | the chunks of 16383 bytes and the tail padded by hand together give the base64 string |
| Base64Js.EncodeChunk | js/bundle.js:100-118 | encodes the triples of a chunk |
| Base64Js.EncodedConcat | js/bundle.js:107-132 | encoding splits at every multiple of three bytes |
| Base64Js.EncodersAgree | js/bundle.js:2952 | both encoders give the same string |
| Base64Js.ToByteArray | js/bundle.js:54-98 | returns the specified bytes of any string, or throws as specified |
| Base64Js.BytesThrow | js/bundle.js:23-70 | an exception exactly on a length not divisible by four or padding in first place |
| Base64Js.ZerosAreLeft | js/bundle.js:38-98 | the groups and the tail fill the whole array if and only if the first padding character starts no group; else the group before it is lost and two zero bytes are left |
| Base64Js.PaddingOnlyGroup | js/bundle.js:54-98 | an input that shows it: TWFu==== decodes to two zero bytes |
| Base64Js.BytesUndoEncoded | js/bundle.js:54-151 | decoding undoes encoding for every byte string |
| Base64Bits.BytesAreBits | js/bundle.js:54-98 | for any string the k-th byte is the k-th eight bits of its characters' numbers, up to the padding, and zero behind |
| Base64Js.RoundTrip | js/bundle.js:54-151 | the decoder returns the bytes that were encoded |
| Framing.Encode | src/main/java/com/thought/monkey/codec/protobuf/ProtoCodec.java:38-48 | appends magic byte, big-endian length and payload |
| Framing.FrameLayout | src/main/java/com/thought/monkey/codec/protobuf/ProtoCodec.java:38-48 | for every payload the frame is 86, four bytes that make its length with the highest first, and the payload |
| Framing.StepLayout | src/main/java/com/thought/monkey/codec/protobuf/ProtoCodec.java:55-110 | one call of decode on any bytes, by the byte 86 and the number of the next four: the payload behind them, an incomplete or bad frame, or a negative length |
| Framing.ProtoDecoder.Decode | src/main/java/com/thought/monkey/codec/protobuf/ProtoCodec.java:55-110 | delivers the message of a complete frame, leaves the reader where it was on an incomplete one, throws on a bad one with the reader behind what it took, and closes the channel on a negative length |
| Framing.ProtoDecoder.ChannelRead | src/main/java/com/thought/monkey/codec/protobuf/ProtoCodec.java:55-110 | a chunk appended and decoded to no progress or an exception is one feeding step, after earlier exceptions too |
| Framing.StepExtends | src/main/java/com/thought/monkey/codec/protobuf/ProtoCodec.java:55-110 | bytes behind a complete or bad frame change nothing about it |
| Framing.DrainSplits | src/main/java/com/thought/monkey/codec/protobuf/ProtoCodec.java:55-110 | decoding what has arrived and then the rest is decoding everything at once, if nothing is left to decode behind an exception |
| Framing.ChunkingIndependent | src/main/java/com/thought/monkey/codec/protobuf/ProtoCodec.java:55-110 | for any bytes and parser, if that is so, every cut into chunks leads to the same messages, pending bytes and exceptions |
| Framing.SameForEveryCutIffSettled | src/main/java/com/thought/monkey/codec/protobuf/ProtoCodec.java:55-110 | every cut leads to the same if and only if nothing is left to decode behind the first exception, or that closed the channel; otherwise it makes a difference whether the last byte arrives alone |
| Framing.SixZeros | src/main/java/com/thought/monkey/codec/protobuf/ProtoCodec.java:55-110 | an input that fails: six zero bytes throw once in one chunk and twice in some two |
| Framing.DrainsFrames | src/main/java/com/thought/monkey/codec/protobuf/ProtoCodec.java:38-110 | the frames of any list of payloads decode to the list, with nothing left over |
| Framing.MessagesArrive | src/main/java/com/thought/monkey/codec/protobuf/ProtoCodec.java:38-110 | however the frames of any list of messages are cut, what survives of each arrives, in order, with nothing left over; it is the list itself if and only if all strings are well-formed |
| Framing.FramesArrive | src/main/java/com/thought/monkey/codec/protobuf/ProtoCodec.java:38-110 | the same for any parser that takes each payload |
| Nodes.IdIsTheNumber | src/main/java/com/thought/monkey/server/distributed/NettyWorker.java:126-146 | the id of a path is the number behind the last prefix, whatever stands before it |
| Nodes.IdIsThePlaceValue | src/main/java/com/thought/monkey/server/distributed/NettyWorker.java:126-146 | behind the literal prefix and at most one sign, what the places of the digits add up to, or an exception beyond 64 bits |
| Nodes.IdOnlyOfNames | src/main/java/com/thought/monkey/server/distributed/NettyWorker.java:126-146 | only paths of exactly that form have an id |
| Nodes.IdOnlyOfNumbers | src/main/java/com/thought/monkey/server/distributed/NettyWorker.java:126-146 | only paths of that form have an id, all others throw |
| Nodes.IdOfSequentialPath | src/main/java/com/thought/monkey/server/distributed/NettyWorker.java:126-146 | the literal prefix and ten digits whose places add up to a number lead back to the number |
| Nodes.NettyWorker.Init | src/main/java/com/thought/monkey/server/distributed/NettyWorker.java:66-108 | only the first call registers; on success the node gets the id of its path, on failure it keeps what it had |
| Nodes.NettyWorker.IncBalance | src/main/java/com/thought/monkey/server/distributed/NettyWorker.java:172-189 | the counter goes up by one even when the write fails |
| Nodes.NettyWorker.DecrBalance | src/main/java/com/thought/monkey/server/distributed/NettyWorker.java:194-211 | the counter goes down by one even when the write fails |
| Routers.NodeRouter.DoAfterAdd | src/main/java/com/thought/monkey/server/distributed/NodeRouter.java:57-74 | stops the old sender, and the new one is the current one of its node |
| Routers.NodeRouter.DoAfterRemove | src/main/java/com/thought/monkey/server/distributed/NodeRouter.java:80-90 | stops and removes the sender of the node, if there is one |
| Routers.PeerSender.DoConnect | src/main/java/com/thought/monkey/server/distributed/PeerSender.java:69-135 | a sender counts as connected after at most three attempts, whether or not the third one succeeded |
| Routers.NodeRouter.ProcessNodeAdd | src/main/java/com/thought/monkey/server/distributed/NodeRouter.java:206-245 | the table changes as one announcement says; the local node and a repeated one change nothing; no sender leaks |
| Routers.NodeRouter.ProcessNodeRemove | src/main/java/com/thought/monkey/server/distributed/NodeRouter.java:184-201 | the table changes as one removal says and no sender leaks; a bad path throws |
| Routers.NodeRouter.ChildEvents | src/main/java/com/thought/monkey/server/distributed/NodeRouter.java:133-164 | after any events keys are their senders' node ids, every sender created is the current one of its node or has been stopped, and the table is the fold of the events |
| Routers.NodeRouter.Forward | src/main/java/com/thought/monkey/session/RemoteSession.java:30-45 | one copy more for the home node if its sender is connected, else nothing; no other sender is touched |
| Routers.AnnouncesUnlessLocal | src/main/java/com/thought/monkey/server/distributed/NodeRouter.java:206-245 | an addition with a good path announces a node, with the id of the path, unless its id, host and port are all the local node's |
| Routers.AnnouncementReplaces | src/main/java/com/thought/monkey/server/distributed/NodeRouter.java:206-245 | under a known id a node with another host or port takes the place of the old one; only the same one changes nothing |
| Routers.TableIsAnnouncedAndNotRemoved | src/main/java/com/thought/monkey/server/distributed/NodeRouter.java:184-245 | after any history of events the keys are exactly the ids of added and not since removed paths, the local node's own apart, each with the host and port added last |
| Directories.Put | src/main/java/com/thought/monkey/entity/UserCache.java:27-32 | an entry with a new session id goes to the end |
| Directories.PutInPlace | src/main/java/com/thought/monkey/entity/UserCache.java:27-32 | an entry with a listed session id replaces that one in its place and leaves all others alone |
| Directories.WithoutClosesUp | src/main/java/com/thought/monkey/entity/UserCache.java:34-39 | removing takes out the entry of that id and leaves the others in order |
| Directories.UserCacheImpl.AddSession | src/main/java/com/thought/monkey/service/impl/UserCacheImpl.java:45-53 | read, change and save leave the user's list with the entry put, and every other list alone |
| Directories.UserCacheImpl.RemoveSession | src/main/java/com/thought/monkey/service/impl/UserCacheImpl.java:56-67 | the same for removing, which leaves an empty list for an unknown user |
| Sessions.SessionManager.Add | src/main/java/com/thought/monkey/session/SessionManager.java:80-121 | the local session, both directory entries and the counter change together |
| Sessions.SessionManager.GetSessionByUserId | src/main/java/com/thought/monkey/session/SessionManager.java:165-198 | the listed sessions in directory order, the missing ones put in the map as remote; null for none |
| Sessions.SessionManager.Collect | src/main/java/com/thought/monkey/session/SessionManager.java:178-196 | the loop that builds the list while inserting into the map |
| Sessions.SessionManager.CloseSession | src/main/java/com/thought/monkey/session/SessionManager.java:203-228 | removes the bound session; without one the guard itself throws and nothing changes |
| Sessions.SessionManager.Remove | src/main/java/com/thought/monkey/session/SessionManager.java:274-300 | an absent id changes nothing; otherwise map, directory and counter change together |
| Sessions.SessionManager.RemoveRemoteSession | src/main/java/com/thought/monkey/session/SessionManager.java:249-253 | never removes anything, because the guard compares the id with values |
| Sessions.SessionManager.AddRemoteSession | src/main/java/com/thought/monkey/session/SessionManager.java:263-270 | always overwrites, for the same reason |
| Sessions.SessionManager.OnNotification | src/main/java/com/thought/monkey/handler/protobuf/RemoteNotificationHandler.java:80-107 | notifications as parsed change no map, and SESSION_ON ends in an exception |
| Cluster.NextIsOpen | src/main/java/com/thought/monkey/session/SessionManager.java:80-121 | connecting opens a session, closing it ends that, nothing else does either |
| Cluster.NextKeepsDirectory | src/main/java/com/thought/monkey/service/impl/UserCacheImpl.java:45-67 | every step keeps the directory equal to the user's open sessions in order |
| Cluster.NextKeepsServer | src/main/java/com/thought/monkey/session/SessionManager.java:80-300 | every step keeps every node's map true and its balance equal to its local sessions |
| Cluster.NextKeepsRecords | src/main/java/com/thought/monkey/session/SessionManager.java:80-300 | every step keeps the per-session records equal to the open sessions with their true homes |
| Cluster.RunsKeepInv | src/main/java/com/thought/monkey/session/SessionManager.java:80-300 | after every run of connects, lookups, repeated closes and notifications on any number of nodes the whole invariant holds |
| Cluster.LookupIsSound | src/main/java/com/thought/monkey/session/SessionManager.java:165-198 | after any run a lookup on any node returns exactly the user's open sessions in the order of connecting, local on the home node, remote with the true home elsewhere |
| Cluster.OpenOnesStay | src/main/java/com/thought/monkey/session/SessionManager.java:80-121 | the open sessions are sessions that connected at some event and that no later one closed, in the order of connecting |
| Cluster.StayingOnesAreOpen | src/main/java/com/thought/monkey/session/SessionManager.java:80-300 | and all such sessions |
| Cluster.BalanceIsLocalSessions | src/main/java/com/thought/monkey/server/distributed/NettyWorker.java:172-211 | after any run each balance is the number of the node's local sessions, which are its open ones, and never negative |
| Cluster.RunsKeepAddresses | src/main/java/com/thought/monkey/session/SessionManager.java:80-198 | after any run every node record in the directory, the per-session records and the session maps has the host and port of the server of its id |
| Dispatch.BinaryHandler.Action | src/main/java/com/thought/monkey/processer/MsgProcesser.java:26-54 | looks the recipient up and writes to every session found, in order: to the client channel or to the sender of the home node |
| Dispatch.BinaryHandler.WriteToAll | src/main/java/com/thought/monkey/handler/BinaryHandler.java:71-77 | one copy for every session of the list, and nothing to any other channel or node |
| Dispatch.BinaryHandler.ChannelRead | src/main/java/com/thought/monkey/handler/BinaryHandler.java:33-88 | passes on what is no DATA message and delivers the rest, through the processor for a connected client and by its own loop for a peer |
| Dispatch.LocalOutIsWrites | src/main/java/com/thought/monkey/handler/BinaryHandler.java:71-77 | what the loop writes to client channels is what the delivery step counts |
| Dispatch.LocalOutInOrder | src/main/java/com/thought/monkey/handler/BinaryHandler.java:71-77 | the writes keep the order of the sessions |
| Dispatch.ForwardedOutIsCopies | src/main/java/com/thought/monkey/session/RemoteSession.java:30-45 | what the loop sends to each node is what the delivery step puts under way to it |
| Dispatch.HandlerTakesTheStep | src/main/java/com/thought/monkey/handler/BinaryHandler.java:48-83 | a handler run on a node of the cluster is one step of the delivery |
| Delivery.HandleIs | src/main/java/com/thought/monkey/handler/BinaryHandler.java:63-77 | a delivery step depends on the recipient's open sessions alone, however stale the node's map |
| Delivery.OneHomeDelivery | src/main/java/com/thought/monkey/handler/BinaryHandler.java:48-83 | to k sessions on one home a message is handled at most 1 + k times; at rest each writable session was written once from the home, k times from a connected node, never from another |
| Delivery.OneCopyPerSession | src/main/java/com/thought/monkey/handler/BinaryHandler.java:63-77 | a handling sends each other linked node one copy for every open session there |
| Delivery.EachSessionOf | src/main/java/com/thought/monkey/handler/BinaryHandler.java:48-83 | and so each single open session with a writable channel is written to once or k times, and no other session ever |
| Delivery.ExactlyOnce | src/main/java/com/thought/monkey/handler/BinaryHandler.java:48-83 | to a single session exactly one write from any origin that reaches its home and if its channel is writable, else none |
| Delivery.TwoHomesNeverRest | src/main/java/com/thought/monkey/handler/BinaryHandler.java:63-77 | with sessions on two nodes and all peers connected there is always a copy under way |
| Delivery.HandlingsAreCounted | src/main/java/com/thought/monkey/handler/BinaryHandler.java:48-83 | where copies cannot be forwarded for ever, every order of handling comes to the same number of handlings, fixed by the origin, the links and the sessions |
| Delivery.ForwardingEndsIffNoCircle | src/main/java/com/thought/monkey/handler/BinaryHandler.java:48-83 | whatever the links, the number of handlings is bounded if and only if no circle of linked home nodes can be reached from the origin |
| Delivery.ForwardingEndsIffOneHome | src/main/java/com/thought/monkey/handler/BinaryHandler.java:48-83 | with all peers connected the number of handlings is bounded if and only if the recipient's sessions share one home |
| Delivery.EndlessForwarding | src/main/java/com/thought/monkey/handler/BinaryHandler.java:63-77 | an input that never ends: one user connects to each of two nodes that are linked, and a message to the user is forwarded for ever |

## Left out

- Floating point (`splitFloat*`, `joinFloat*`, `ieee754`), which rests on rounding and `Math.log`.
- `unskipVarint`, `skipMatchingFields`, the `count*` functions and `arrayIndexOf`: wrong on boundary cases, and not used by the two messages.
- Reading of nested messages in blocks of their own, instance caches, repeated and packed fields, read callbacks: the two messages have none.
- Reader.BinaryDecoder.Advance: a negative step ends in `Backward`, with the cursor where it was; the source moves it back. The members on the next six lines end likewise; `ParseRuns` says how the source's parse goes on.
- FieldReader.BinaryReader.SkipField: stops with `Backward` at a skipped field with a negative length.
- FieldReader.BinaryReader.SkipGroup: stops with `Backward` at a skipped field with a negative length.
- Messages.Model.DeserializeBinaryFromReader: stops with `Backward` at a skipped field with a negative length.
- Messages.DeserializeModelBinary: stops with `Backward` at a skipped field with a negative length.
- Messages.MessageBody.DeserializeBinaryFromReader: stops with `Backward` at a skipped field with a negative length.
- Messages.DeserializeMessageBodyBinary: stops with `Backward` at a skipped field with a negative length.
- FieldReader.BinaryReader.ReadEnum: values beyond 2^53 are exact, where the source rounds.
- Records.ReadsValue: enum values beyond 2^53 from foreign encodings are kept exactly, where the source rounds; written ones are int32.
- Hash64s.DecimalStringToHash64: stated for numerals, because the source computes with arbitrary characters as digits.
- Writer.BinaryWriter.WriteBytes: the caller's array is taken by value; the source keeps it until the result is built.
- Base64.DecodeStringInternal: code points are units, so white space outside the basic plane does not arise.
- Nodes.IdIsTheNumber: `Long.parseLong` also takes digits of other scripts; only ASCII ones are modelled.
- Nodes.IdOnlyOfNumbers: the same; a path with other digits has an id in the source.
- Split64.JoinInt64: exact beyond 2^53, where the source rounds.
- Split64.SplitJoin: the same; beyond 2^53 the source has only the integers that are doubles.
- ServerModels.ServerModel.Parse: unknown fields are a parameter of the loop, and an end-group tag fails here already, where the source fails in the surrounding `parseFrom`.
- ServerModels.ServerModel.WriteTo: unknown fields kept by a parse are not written back.
- ServerModels.ServerRoundTrip: `CodedInputStream` and Java's UTF-8 are modelled as their documentation states them.
- ServerModels.MergeFrom: the source compares contents with the empty string by reference, so an empty one from elsewhere would overwrite.
- The heap-buffer branch of `decode`, which takes the whole backing array and leaves the reader where it was; the direct-buffer branch is modelled.
- Framing.ProtoDecoder.ChannelRead: Netty's accumulation is modelled as its documentation states it; what it decodes of the remaining bytes when the channel closes is not.
- Expiry of directory entries after four hours, and interleavings inside one `add`, `remove` or lookup.
- Cluster.LookupIsSound: assumes fresh session ids and that Redis operations succeed.
- Delivery.OneHomeDelivery: links and writable channels do not change during a delivery, and the recipient neither connects nor closes; all other steps of the cluster may come in between.
- Routers.PeerSender.DoConnect: the ten seconds between attempts, stopping or losing the connection meanwhile, and the notification written at the end.
- Dispatch.BinaryHandler.ChannelRead: the lookup and the writes run at once; asynchronous scheduling is left to the delivery's interleaving.
- Sending of notifications, closing of the channel itself, logging, `WsNode.compareTo`.
- Netty bootstrap, pipelines, HTTP upgrade, heartbeats, HTML pages, the rest of the Closure library.
