# A verified model of the mqtt_cpp codecs, alias tables and message store

The project models six parts of the library and proves what their documentation and tests rely on.

- **Variable byte integers and fixed-width integers** (`Bytes`, `VariableLength`). Both encoders and both
  decoders are methods with the program's loops, proved against a declarative reading of the bytes.
- **The v3.1.1 messages** (`Wire`, `HeaderMessages`, `ConnectMessage`, `SubscribeMessage`, `SubackMessage`,
  `UnsubscribeMessage`, `PublishFlags`, `PublishMessage`, `PublishRoundTrip`, `MessageStream`). `Wire` holds the packets as
  values, their wire format and a reference decoder after chapters 2 and 3 of MQTT v3.1.1. The constructors
  and serializers of the messages are methods proved against it. PUBLISH, which is also read back and
  changed in place, is a class; the other messages never change once built and are records.
- **The v5 properties** (`Property`, `PropertyParse`, `PropertyOrder`, `JsonLike`): constructors, `fill`,
  scattered buffers, the shrinking parser, comparison, the escaping printer. The 27 kinds are grouped by
  their five layouts (section 2.2.2 of MQTT v5.0).
- **UTF-8 contents check** (`Utf8`, `StringCheck`).
- **Topic aliases** (`ValueAllocator`, `AliasTable`, `TopicAlias`, `TopicAliasChannel`): the interval
  allocator, the three-index table of the sender, the table of the receiver, and the two joined by a
  first-in first-out channel.
- **The store of unacknowledged messages** (`Store`) and **shared subscription filters**
  (`SharedSubscriptions`). `Lists` has what the indexes of the alias table and the store share.

Conventions and assumptions:

- A `char` is its unsigned byte value; masks and shifts are remainders and divisions. Where the signedness
  of `char` matters (`PropertyOrder`), it is a parameter.
- `size_t` is unbounded: the sizes of buffers in memory do not wrap it.
- `boost::numeric_cast`, `utf8string_check` and the exceptions of the library are the cases of
  `Wrappers.Error`; a constructor that throws returns `Failure` with the exception that is thrown first.
- The UTF-8 contents check is a parameter `ok` of everything that uses it, because `MQTT_USE_STR_CHECK`
  decides at build time whether it rejects anything. `StringCheck.ContentsCheck` gives both instances.
- Buffers are byte sequences, and a view that is moved stays what it was. Where a move shows, in
  `store::insert_or_update`, what it leaves behind is a parameter `left` of everything in `Store`.
- An assertion of the program that fails is the outcome `Wrappers.Assertion` and changes nothing. The one
  exception is `topic_alias_recv::insert_or_update`, whose alias comes unchecked from a peer: there the model
  goes on, as a build without assertions does.
- The steady clock is a parameter `now` that never goes back; two readings may be equal.
- `multi_index_container` is modelled by its indexes: `emplace` does nothing if a unique index has the key, and
  `modify` repositions an element of the timestamp index only when it no longer fits where it is. Where a
  new or repositioned element goes among those with an equal timestamp the container does not promise, and
  the hint of `emplace_hint` may decide it: every operation has a parameter `ahead`, the number of such
  elements that it is put in front of at most.
- `PacketIdBytes` is the parameter `n`, 2 or 4. The values of the allocator are 16 or 32 bits wide.

Results where the code does less than its documentation or a reader would expect, each with the exact
condition proved:

- `variable_length` accepts a number that is cut short (`VariableLength.TruncatedIsAccepted`), and
  non-canonical forms (`VariableLength.ReencodeIffCanonical`).
- A PUBLISH with QoS 3 can be built but not read back (`PublishRoundTrip.BuildParse`).
- Publish options of 64 and above change the packet type; a stream of built messages is still cut right, but
  decodes to the messages meant exactly if no PUBLISH in it has such options or QoS 3
  (`MessageStream.BuiltStreamCuts`, `MessageStream.BuiltStreamRoundTrip`; `MessageStream.OptionsChangeType`
  is a PUBLISH that arrives as a PUBCOMP).
- `size()` of a PUBLISH that was read back is its length only if the remaining length in the buffer was
  right (`PublishRoundTrip.ParsedSize`).
- A subscription identifier above 0xfffffff is accepted and lost (`Property.MakeVal`), and written as a bare
  identifier byte that takes the bytes behind it for its number (`PropertyParse.OversizedIdentifier`).
- `num_of_const_buffer_sequence` of string and binary properties is one too small
  (`Property.BufferCount`).
- Where `char` is signed, numeric properties do not always sort by value (`PropertyOrder.OrderByValue`).
- Binding a fresh alias to a topic that another alias stands for marks the alias used and binds nothing.
  The allocator's used set is the set of bound aliases throughout a run exactly if that never happens, and at
  the end of a run exactly if every alias offered has been bound after all (`AliasTable.RefusedStaysUsed`,
  `AliasTable.UsedIsBoundThroughout`, `AliasTable.UsedIsBoundAtEnd`); the two ends' tables stay equal on the
  same condition (`TopicAliasChannel.RefusedBreaksMirror`, `TopicAliasChannel.MirrorIffNotRefused`). Messages
  are resolved correctly in any case (`TopicAliasChannel.Agreement`).
- The timestamp index is not always in order of recency: an alias touched at the same reading of the clock as
  the next more recent one stays in front of it (`AliasTable.TieKeepsOrder`), and one bound at the same reading
  as another may be put in front of that (`AliasTable.FreshTie`). It is the recency list throughout a run
  exactly if there is no such tie (`AliasTable.OrderIsRecency`), whatever the container does if no two aliases
  share a reading (`AliasTable.NoSharedReadingsNoTies`), and lists the aliases by the time of their last touch
  in any case (`AliasTable.OrderIsByLastTouch`).
- A receiver binds an alias that is out of range if it comes with a topic, and refuses it if it comes
  without (`TopicAliasChannel.RangeCheckedLate`). One that has announced no aliases, and so has no table, asks
  the missing table for its maximum when an alias other than 0 comes without a topic: an exception
  (`TopicAliasChannel.OnPublish`, `TopicAliasChannel.AbsentTables`).
- The allocator of 32-bit values gives everything back, 0 included, when the last free value is 2^32 - 1 and
  is declared used; to allocate that value fails an assertion (`ValueAllocator.Allocator.Use`,
  `ValueAllocator.Allocator.Allocate`). In all other cases, and for 16 bits, both are right.
- `store::insert_or_update` moves its arguments into the emplace before it knows that it fails: an update
  stores what the move has left (`Store.UpdateLosesContent`). The store holds what it was given throughout a
  run exactly if no update has arguments that a move changes (`Store.ContentIffNothingLost`). The order, and
  unless a for_each tells a message from what a move leaves of it the identifiers and types, are right in any
  case (`Store.OrderIsInsertionOrder`, `Store.IndexesSurvive`).
- The comment on the UTF-8 check speaks of non-characters; U+FDD0 to U+FDEF are not among those it
  excludes (`Utf8.NonCharactersPass` at the first of them; `Utf8.ValidateIsUnicode` states the excluded ones).
- A pair printed by `create_topic_filter_buffer` does not always parse to the same pair
  (`SharedSubscriptions.PrintParse`, `SharedSubscriptions.SlashMovesOver`), and the empty filter fails an assertion
  (`SharedSubscriptions.AcceptedIffPrinted`).

## Model

| member | source | states |
|---|---|---|
| `Bytes.Uint32RoundTrip` | include/mqtt/four_byte_util.hpp:21-53 | four bytes and the number they stand for determine each other, in both directions |
| `Bytes.AddUint32ToBuf` | include/mqtt/four_byte_util.hpp:30-36 | the four shifted and truncated bytes are the two big-endian halves |
| `Bytes.MakeUint32FromBytes` | include/mqtt/four_byte_util.hpp:38-53 | the weighted sum of four bytes is the value whose encoding they are |
| `Bytes.IdRoundTrip` | include/mqtt/two_or_four_byte_util.hpp:32-68 | packet identifiers of both widths survive writing and reading, and so do their bytes |
| `Bytes.IdLayout` | include/mqtt/two_or_four_byte_util.hpp:32-68 | packet identifiers are two or four bytes, most significant first |
| `VariableLength.VariableBytes` | include/mqtt/variable_length.hpp:17-27 | the loop computes the base-128 encoding, and nothing above 0xfffffff |
| `VariableLength.VariablePush` | include/mqtt/variable_length.hpp:29-38 | the same encoding is appended to any container |
| `VariableLength.VariableLength` | include/mqtt/variable_length.hpp:40-54 | the loop computes the value and length of the chain of continued bytes, or (0, 0) beyond four |
| `VariableLength.VariableLengthRange` | include/mqtt/variable_length.hpp:56-70 | the iterator overload computes the same on any range |
| `VariableLength.RemainingBytes` | include/mqtt/remaining_length.hpp:16-21 | remaining_length_error exactly above 0xfffffff |
| `VariableLength.EncodeLength` | include/mqtt/variable_length.hpp:29-38 | k bytes suffice exactly for the numbers below 128^k |
| `VariableLength.EncodeDigits` | include/mqtt/variable_length.hpp:29-38 | the one to four bytes of every number, as digits to the base 128 with the high bit on all but the last |
| `VariableLength.RoundTrip` | include/mqtt/variable_length.hpp:29-70 | an encoding of 1 to 4 bytes decodes to its number and its own length, whatever follows |
| `VariableLength.DecodeBounds` | include/mqtt/variable_length.hpp:56-70 | for any input: value below 128^consumed, re-encoding never longer, failure exactly on empty input or a chain of five, and the bytes that a number consists of |
| `VariableLength.ReencodeIffCanonical` | include/mqtt/variable_length.hpp:29-70 | re-encoding reproduces the bytes exactly for terminated strings without a redundant zero group |
| `VariableLength.TruncatedIsAccepted` | include/mqtt/variable_length.hpp:62-69 | a proper prefix of an encoding decodes, whole, to a smaller number |
| `Wire.HeaderIsTypeAndFlags` | include/mqtt/message.hpp:50-1115 | the first byte of every kind is the packet type of section 2.2.1 and the flags of section 2.2.2 |
| `Wire.ConnectHeader` | include/mqtt/message.hpp:311-327 | a CONNECT body starts with the string "MQTT", level 4, the flags and the keep alive |
| `Wire.FlagBits` | include/mqtt/message.hpp:328-348 | each bit of the CONNECT flags is the option that section 3.1.2.3 gives it |
| `Wire.ConnectFields` | include/mqtt/message.hpp:446-478 | the counted strings of a CONNECT in order: client identifier, will topic, will message, user name, password |
| `Wire.BodyLayout` | include/mqtt/message.hpp:50-1115 | the bodies of the other kinds, field by field |
| `Wire.EntryLayout` | include/mqtt/message.hpp:834-1107 | the entries of SUBSCRIBE and UNSUBSCRIBE, in order |
| `Wire.ConnectInverts` | include/mqtt/message.hpp:446-478 | every field of a CONNECT body is recovered by the reference decoder, so none can be confused with another |
| `Wire.BodyInverts` | include/mqtt/message.hpp:50-1115 | every well-formed packet of any kind is recovered from its header byte and body |
| `Wire.CutInverts` | include/mqtt/message.hpp:301-1115 | the remaining length of a packet is exactly the number of bytes after it, in any stream |
| `Wire.StreamRoundTrip` | include/mqtt/message.hpp:50-1115 | a concatenation of packets of any kinds is cut and decoded into the same list |
| `MessageStream.BuiltStreamCuts` | include/mqtt/message.hpp:50-1115 | the continuous buffers of any built messages, with any options, one after another, are cut by the remaining lengths alone into the same headers and bodies |
| `MessageStream.BuiltStreamRoundTrip` | include/mqtt/message.hpp:50-1115 | and they are decoded into the same messages in order exactly if no PUBLISH among them has QoS 3 or options of 64 and above |
| `MessageStream.OptionsChangeType` | include/mqtt/message.hpp:520 | a PUBLISH with options 64 that arrives as a PUBCOMP |
| `MessageStream.BufferIsPacket` | include/mqtt/message.hpp:446-1107 | the continuous buffer of a built message of any kind is the wire format of its packet exactly if its publish options are legal |
| `HeaderMessages.HeaderOnlyMessage` | include/mqtt/message.hpp:55-57 | PINGREQ, PINGRESP and DISCONNECT are their wire format |
| `HeaderMessages.PacketIdMessage` | include/mqtt/message.hpp:109-113 | PUBACK, PUBREC, PUBREL, PUBCOMP and UNSUBACK are their wire format |
| `HeaderMessages.ConnackMessage` | include/mqtt/message.hpp:251-258 | CONNACK is its wire format |
| `HeaderMessages.PubrelRoundTrip` | include/mqtt/message.hpp:115-121 | a built PUBREL is accepted unchanged and reports its packet identifier |
| `HeaderMessages.PubrelErrors` | include/mqtt/message.hpp:115-121 | a buffer is accepted exactly if its second byte is the number of bytes after it, and that of a packet identifier |
| `HeaderMessages.PubrelAccepts` | include/mqtt/message.hpp:115-121 | whatever is accepted is a PUBREL packet up to its unchecked first byte |
| `ConnectMessage.Build` | include/mqtt/message.hpp:303-369 | the first exception in source order, or all fields, with flags and remaining length of the CONNECT packet |
| `ConnectMessage.ConnectErrors` | include/mqtt/message.hpp:303-369 | a CONNECT can be built exactly if all its strings fit and the three checked ones pass; which exception is thrown otherwise |
| `ConnectMessage.ConstBufferSequence` | include/mqtt/message.hpp:376-407 | the buffers that the flags select, in order |
| `ConnectMessage.ContinuousBuffer` | include/mqtt/message.hpp:446-478 | the flat form is the concatenation of the scattered one |
| `ConnectMessage.AlwaysSendable` | include/mqtt/message.hpp:365-368 | the remaining length of a CONNECT is never too large |
| `ConnectMessage.BuiltPacket` | include/mqtt/message.hpp:376-478 | a built message serializes to the wire format, and size() is its length |
| `ConnectMessage.BufferCount` | include/mqtt/message.hpp:424-438 | the announced count is an upper bound, reached exactly with all optional fields |
| `SubscribeMessage.Build` | include/mqtt/message.hpp:797-827 | the first failing topic decides the exception; otherwise the accumulated remaining length is that of the packet, or an error if too large |
| `SubscribeMessage.TopicErrors` | include/mqtt/message.hpp:797-827 | no exception exactly if all topics fit and pass the check; otherwise that of the first that does not |
| `SubscribeMessage.ConstBufferSequence` | include/mqtt/message.hpp:834-851 | the loop lists header, identifier and three buffers per entry in order |
| `SubscribeMessage.ContinuousBuffer` | include/mqtt/message.hpp:882-899 | the flat form is the concatenation of the scattered one |
| `SubscribeMessage.BuiltPacket` | include/mqtt/message.hpp:834-899 | wire format, size() and buffer count of a built message are right |
| `SubackMessage.Build` | include/mqtt/message.hpp:914-931 | all fields, or remaining_length_error exactly when the packet is too large |
| `SubackMessage.ContinuousBuffer` | include/mqtt/message.hpp:975-987 | the flat form is the concatenation of the scattered one |
| `SubackMessage.BuiltPacket` | include/mqtt/message.hpp:938-987 | wire format, size() and buffer count of a built message are right |
| `UnsubscribeMessage.Build` | include/mqtt/message.hpp:1013-1038 | as for SUBSCRIBE, with two bytes and the topic per entry |
| `UnsubscribeMessage.TopicErrors` | include/mqtt/message.hpp:1013-1038 | as for SUBSCRIBE |
| `UnsubscribeMessage.ConstBufferSequence` | include/mqtt/message.hpp:1045-1060 | the loop lists header, identifier and two buffers per entry in order |
| `UnsubscribeMessage.ContinuousBuffer` | include/mqtt/message.hpp:1091-1107 | the flat form is the concatenation of the scattered one |
| `UnsubscribeMessage.BuiltPacket` | include/mqtt/message.hpp:1045-1107 | wire format, size() and buffer count of a built message are right |
| `PublishFlags.SetDupBit` | include/mqtt/publish.hpp:34-37 | dup is written; QoS, retain and packet type stay |
| `PublishFlags.HeaderFromBits` | include/mqtt/publish.hpp:22-32 | type, dup, QoS and retain determine the header byte |
| `PublishMessage.Build` | include/mqtt/message.hpp:514-552 | the first exception in source order, or the fields with the accumulated remaining length |
| `PublishMessage.PublishErrors` | include/mqtt/message.hpp:514-552 | for any options the constructor succeeds exactly if the topic fits and passes the check and the lengths of the parts sum to at most 0xfffffff; which exception is thrown otherwise |
| `PublishRoundTrip.BuiltIffSendable` | include/mqtt/message.hpp:514-552 | for QoS 0 to 2, exactly if the topic passes and the packet meant can be sent |
| `PublishMessage.FromBuffer` | include/mqtt/message.hpp:555-600 | the consuming constructor accepts, rejects and reads as its specification, error by error |
| `PublishRoundTrip.ParseReads` | include/mqtt/message.hpp:555-600 | every field, and every exception, by offset in the buffer; an empty payload is no buffer |
| `PublishMessage.Message.ConstBufferSequence` | include/mqtt/message.hpp:607-619 | the buffers, with the packet identifier only if there is one |
| `PublishMessage.Message.NumOfConstBufferSequence` | include/mqtt/message.hpp:636-643 | the announced count is the number of buffers |
| `PublishMessage.Message.ContinuousBuffer` | include/mqtt/message.hpp:651-668 | the loop over the payloads writes the flat form |
| `PublishMessage.Message.PacketId` | include/mqtt/message.hpp:674-676 | the identifier whose bytes the message holds |
| `PublishMessage.Message.PayloadAsBuffer` | include/mqtt/message.hpp:735-758 | the copied array is the concatenation of the payloads |
| `PublishMessage.Message.SetDup` | include/mqtt/message.hpp:764-766 | only the dup bit of the header changes |
| `PublishRoundTrip.ScatterIsFlat` | include/mqtt/message.hpp:607-668 | the scattered buffers of any message concatenate to the flat form |
| `PublishRoundTrip.BuiltSize` | include/mqtt/message.hpp:625-630 | size() of a built message is the number of bytes written, also after set_dup |
| `PublishRoundTrip.BuildParse` | include/mqtt/message.hpp:514-600 | build, any set_dup calls, print, parse: the same message with one payload buffer, exactly when the QoS is not 3 |
| `PublishRoundTrip.BuildParseAttributes` | include/mqtt/message.hpp:674-729 | the accessors of the parsed message report the options, topic, packet identifier and payload it was built from |
| `PublishRoundTrip.ParsePrint` | include/mqtt/message.hpp:555-668 | every accepted buffer prints back byte by byte, and the length buffer holds at most four bytes |
| `PublishRoundTrip.ParsedSize` | include/mqtt/message.hpp:625-630 | size() after parsing is right exactly when the decoded remaining length was |
| `PublishRoundTrip.ParseAgreesWithWire` | include/mqtt/message.hpp:555-600 | on whole PUBLISH packets the constructor accepts exactly what the wire format allows and the topic check passes, and reads the same packet |
| `PublishRoundTrip.BuiltFrame` | include/mqtt/message.hpp:514-552 | the remaining length of every built message is the number of bytes after it, whatever the options |
| `PublishRoundTrip.BuiltIsWire` | include/mqtt/message.hpp:514-552 | a built message is the PUBLISH packet of the wire format exactly for QoS 0 to 2 and options below 64 |
| `Property.Fill` | include/mqtt/property.hpp:82-88 | writes exactly the wire format at the front of the range and leaves every other byte unchanged, for every property that can be constructed |
| `Property.AddConstBufferSequence` | include/mqtt/property_variant.hpp:110-112 | appends the property's buffers to the list |
| `Property.ScatterIsFlat` | include/mqtt/property.hpp:71-161 | the scattered buffers are the bytes that fill writes, and size() many |
| `Property.BufferCount` | include/mqtt/property.hpp:183-185 | the announced number of buffers is right exactly for the kinds that are not string or binary |
| `Property.MakeVal` | include/mqtt/property.hpp:291-746 | val() of a constructed property is the argument, for every kind and whether or not the caller has the check skipped; for a subscription identifier exactly up to 0xfffffff |
| `Property.MakeChecks` | include/mqtt/property.hpp:205-213 | the strings of a constructed property pass the contents check but for those that the caller has wrongly declared checked |
| `Property.MakeErrors` | include/mqtt/property.hpp:123-746 | when each constructor throws, and what |
| `Property.MakeStores` | include/mqtt/property.hpp:291-746 | the bytes that each constructor stores |
| `Property.ValOfStored` | include/mqtt/property.hpp:291-746 | val() of any stored bytes: flags, the maximum QoS, and numbers of two and four bytes |
| `PropertyParse.ParseOne` | include/mqtt/property_parse.hpp:22-229 | outcome and shrunk buffer of every branch, with the exception that is not caught |
| `PropertyParse.ReadsNumber` | include/mqtt/property_parse.hpp:27-222 | the eight one-byte, four two-byte and four four-byte identifiers: the bytes taken, or no property if they are too few |
| `PropertyParse.ReadsText` | include/mqtt/property_parse.hpp:39-216 | the seven string and two binary identifiers: by the two length bytes, no property if cut short, an exception for a bad string |
| `PropertyParse.ReadsIdentifier` | include/mqtt/property_parse.hpp:65-73 | identifier 11: a variable byte integer, stored canonically |
| `PropertyParse.ReadsPair` | include/mqtt/property_parse.hpp:182-198 | identifier 38: key and value by their length bytes, with every way to be cut short |
| `PropertyParse.ReadsNothingElse` | include/mqtt/property_parse.hpp:22-229 | any other first byte is no property |
| `PropertyParse.Parse` | include/mqtt/property_parse.hpp:231-243 | the loop terminates with the properties up to the first failure |
| `PropertyParse.Progress` | include/mqtt/property_parse.hpp:22-229 | the buffer is left at a suffix of itself, shorter unless it was empty |
| `PropertyParse.Conservation` | include/mqtt/property_parse.hpp:22-229 | a parsed property is well formed, costs at least size() bytes, and was its wire format exactly unless a non-canonical identifier |
| `PropertyParse.ListConservation` | include/mqtt/property_parse.hpp:231-243 | sizes sum to at most the input; without subscription identifiers the list re-serializes to a prefix of the input |
| `PropertyParse.ParseOneInverts` | include/mqtt/property_parse.hpp:22-229 | a serialized property is read back, whatever follows, exactly when its strings pass the check; otherwise it throws |
| `PropertyParse.ParseInvertsBefore` | include/mqtt/property_parse.hpp:231-243 | a serialized list is read back in order and the parse goes on behind it |
| `PropertyParse.ParseEnds` | include/mqtt/property_parse.hpp:231-243 | the list is returned where no property can be read behind it, and lost where that throws |
| `PropertyParse.ParseInverts` | include/mqtt/property_parse.hpp:231-243 | the list round trip succeeds exactly when all strings pass the check, and throws otherwise |
| `PropertyParse.ParseNormalises` | include/mqtt/property_parse.hpp:231-243 | printing and parsing again what was parsed from any input changes nothing |
| `PropertyParse.OversizedIdentifier` | include/mqtt/property.hpp:216-242 | an identifier above 0xfffffff is written as its bare id byte; the parser takes the bytes behind it as the number, or gives up, exactly as they begin with a chain of one to four bytes or not |
| `PropertyOrder.LessByIdentifier` | include/mqtt/property_variant.hpp:133-142 | properties of different kinds are ordered by identifier |
| `PropertyOrder.LessByContent` | include/mqtt/property.hpp:114-120 | those of one kind by the first different byte, a user property by key and then value, a subscription identifier by its number |
| `PropertyOrder.EqualIsIdentity` | include/mqtt/property_variant.hpp:158-181 | == on constructible properties is equality of what is stored |
| `PropertyOrder.Trichotomy` | include/mqtt/property_variant.hpp:133-156 | exactly one of <, > and ==, for the same and for different kinds |
| `PropertyOrder.Transitive` | include/mqtt/property_variant.hpp:133-156 | < is transitive over all kinds |
| `PropertyOrder.OrderByValue` | include/mqtt/property.hpp:114-116 | numeric properties sort by value exactly if char is unsigned or the first differing bytes are on the same side of 0x80 |
| `PropertyOrder.SignedSurprise` | include/mqtt/property.hpp:114-116 | 128 sorts before 127 where char is signed |
| `JsonLike.Print` | include/mqtt/property.hpp:777-821 | the loop prints each byte's escape |
| `JsonLike.EscapeTable` | include/mqtt/property.hpp:777-821 | what is printed for each of the 256 bytes |
| `JsonLike.ReadInverts` | include/mqtt/property.hpp:777-821 | a reader of the escapes recovers every byte string |
| `JsonLike.PrintIsInjective` | include/mqtt/property.hpp:777-821 | different strings are never printed alike |
| `JsonLike.OutputIsSafe` | include/mqtt/property.hpp:777-821 | the output is printable ASCII without an unescaped quote |
| `Utf8.ValidateContents` | include/mqtt/utf8encoded_strings.hpp:46-143 | the loop computes the verdict of the head-by-head specification |
| `Utf8.HeadIsScalar` | include/mqtt/utf8encoded_strings.hpp:54-137 | a front that is accepted encodes a scalar value, and is flagged exactly if that character is excluded |
| `Utf8.ScalarIsHead` | include/mqtt/utf8encoded_strings.hpp:54-137 | every encoded scalar value is accepted, whatever follows |
| `Utf8.ValidateIsUnicode` | include/mqtt/utf8encoded_strings.hpp:46-143 | not ill-formed iff an encoding of non-null scalar values; well-formed iff none of them is a control character or one of the last two of a plane |
| `StringCheck.CheckIsUnicode` | include/mqtt/string_check.hpp:20-26 | the check of a build with the macro passes exactly the well-formed strings, without it every string |
| `Utf8.NonCharactersPass` | include/mqtt/utf8encoded_strings.hpp:82-111 | U+FDD0 is accepted as well-formed |
| `ValueAllocator.Allocator.FirstVacant` | include/mqtt/value_allocator.hpp:126-132 | the least value that is not used, or none exactly when all are |
| `ValueAllocator.Allocator.Allocate` | include/mqtt/value_allocator.hpp:98-120 | takes the least value that is not used, for both widths; an assertion fails exactly if that is 2^32 - 1 as the only one left of a 32-bit type |
| `ValueAllocator.Allocator.Use` | include/mqtt/value_allocator.hpp:237-250 | true exactly for a free value, and adds it to the used ones, unless value + 1 wraps for the last free value: then all values are free |
| `ValueAllocator.Allocator.Deallocate` | include/mqtt/value_allocator.hpp:138-230 | removes the value from the used ones, merging intervals in all four cases, for both widths |
| `ValueAllocator.Allocator.Clear` | include/mqtt/value_allocator.hpp:255-258 | nothing is used |
| `ValueAllocator.Unique` | include/mqtt/value_allocator.hpp:26-76 | the free values determine the intervals: the representation is canonical |
| `AliasTable.InsertBinds` | include/mqtt/topic_alias_send.hpp:38-62 | any alias in range can be bound, or bound anew, to a topic that no other stands for; its former topic then stands for nothing |
| `AliasTable.InsertFails` | include/mqtt/topic_alias_send.hpp:45-58 | insert_or_update fails exactly without a topic, out of range, or when a bound alias is given the topic of another |
| `AliasTable.BindKeepsInv` | include/mqtt/topic_alias_send.hpp:38-62 | insert_or_update keeps all index invariants, leaves other aliases alone, and binds unless the topic index refuses |
| `AliasTable.TouchKeepsInv` | include/mqtt/topic_alias_send.hpp:64-83 | find(alias) keeps the invariants and changes no binding |
| `AliasTable.UsedIsOffered` | include/mqtt/topic_alias_send.hpp:45 | over every run, the allocator's used set is the set of aliases offered since the last clear |
| `AliasTable.UsedIsBoundThroughout` | include/mqtt/topic_alias_send.hpp:38-103 | the used set is the set of bound aliases throughout a run exactly if the topic index refuses no insertion of it |
| `AliasTable.UsedIsBoundAtEnd` | include/mqtt/topic_alias_send.hpp:38-103 | and at the end of a run exactly if every alias offered since the last clear has also been bound |
| `AliasTable.RefusedStaysUsed` | include/mqtt/topic_alias_send.hpp:45-50 | two aliases for one topic: both used, one bound |
| `AliasTable.RunKeepsInv` | include/mqtt/topic_alias_send.hpp:38-112 | over every run under a steady clock: one alias per topic, aliases in range, every bound alias used, and the timestamp index sorted and complete |
| `AliasTable.TimestampIsLastTouch` | include/mqtt/topic_alias_send.hpp:49-81 | the timestamp of an alias is the time of its last touch in the history |
| `AliasTable.LruIsLeastRecent` | include/mqtt/topic_alias_send.hpp:105-112 | over every run, get_lru_alias gives the least alias not offered since the last clear, and otherwise one touched no later than any bound alias |
| `AliasTable.LruCanBeBound` | include/mqtt/topic_alias_send.hpp:38-112 | over every run, that alias can be bound to any new topic, and on a full table loses its old one |
| `AliasTable.OrderIsByLastTouch` | include/mqtt/topic_alias_send.hpp:146-149 | over every run under a steady clock the timestamp index lists the bound aliases by the time of their last touch |
| `AliasTable.OrderIsRecency` | include/mqtt/topic_alias_send.hpp:46-60 | throughout a run the timestamp index is the move-to-end list of the history exactly if no alias touched at a reading that the most recent other one had stays in front of that one, be it left there or put there |
| `AliasTable.NoSharedReadingsNoTies` | include/mqtt/topic_alias_send.hpp:46-60 | without shared readings that holds wherever the container puts elements among equals |
| `AliasTable.StrictRunHasNoTies` | include/mqtt/topic_alias_send.hpp:49-57 | a strictly increasing clock gives neither shared readings nor ties |
| `AliasTable.TieKeepsOrder` | include/mqtt/topic_alias_send.hpp:75-81 | two aliases and a look-up at one reading, after which the index is not in order of recency |
| `AliasTable.FreshTie` | include/mqtt/topic_alias_send.hpp:46-49 | two aliases bound at one reading, the second put in front of the first |
| `TopicAlias.Send.InsertOrUpdate` | include/mqtt/topic_alias_send.hpp:38-62 | for any arguments and any place among equal timestamps: the failing assertion, or the three indexes and the allocator together do what the table does, and stay consistent |
| `TopicAlias.Send.FindTopic` | include/mqtt/topic_alias_send.hpp:64-83 | the topic of the alias or nothing, and a touch; the assertion fails exactly out of range |
| `TopicAlias.Send.FindAlias` | include/mqtt/topic_alias_send.hpp:85-95 | an alias that stands for the topic, or none exactly if no alias does; no touch |
| `TopicAlias.Send.Clear` | include/mqtt/topic_alias_send.hpp:97-103 | the empty table |
| `TopicAlias.Send.GetLruAlias` | include/mqtt/topic_alias_send.hpp:105-112 | the least vacant alias, or the first of the timestamp index |
| `TopicAlias.Recv.InsertOrUpdate` | include/mqtt/topic_alias_recv.hpp:34-55 | binds the alias and nothing else |
| `TopicAlias.Recv.Find` | include/mqtt/topic_alias_recv.hpp:57-70 | the bound topic, and empty exactly if there is none |
| `TopicAliasChannel.ApplyTopicAlias` | include/mqtt/endpoint.hpp:9763-9836 | any message in any mode, with or without a table: what goes out and the table afterwards, or the protocol error or failing assertion with no binding changed |
| `TopicAliasChannel.AutoMapMaps` | include/mqtt/endpoint.hpp:9805-9833 | auto-mapping sends an alias that stands for the topic afterwards, with the topic exactly if none stood for it before, and the next message for it is the alias alone |
| `TopicAliasChannel.AutoMapBinds` | include/mqtt/endpoint.hpp:9814-9818 | a new topic goes out with the least recently used alias, which is bound to it |
| `TopicAliasChannel.AutoRepeats` | include/mqtt/endpoint.hpp:9809-9833 | a topic with an alias is replaced by it in both automatic modes |
| `TopicAliasChannel.PlainSubmission` | include/mqtt/endpoint.hpp:9822-9834 | without automatic modes, or without an alias to replace it, a topic goes out as it is |
| `TopicAliasChannel.ExplicitSubmission` | include/mqtt/endpoint.hpp:9774-9803 | a message with an alias goes out as it is, and binds or touches it |
| `TopicAliasChannel.SubmissionFails` | include/mqtt/endpoint.hpp:9774-9803 | when a submission fails, and how, in terms of the message and the bindings; nothing changes then |
| `TopicAliasChannel.OnPublish` | include/mqtt/endpoint.hpp:7880-7916 | any message, with or without a table: the topic that it is for, a protocol error, or the exception for a missing table |
| `TopicAliasChannel.ReceiveResolves` | include/mqtt/endpoint.hpp:7880-7916 | what topic a message is resolved to, when it is a protocol error, and what it binds |
| `TopicAliasChannel.AbsentTables` | include/mqtt/endpoint.hpp:7880-7916 | without a table at the sender every message that goes out is resolved by any receiver; without one at the receiver exactly those with a topic or without an alias |
| `TopicAliasChannel.RangeCheckedLate` | include/mqtt/endpoint.hpp:7880-7916 | an alias that came with a topic is resolved afterwards exactly if it is in range |
| `TopicAliasChannel.SubmitAgrees` | include/mqtt/endpoint.hpp:9763-9836 | one submission in any mode: what goes out resolves to the topic meant, on the table that replaying the queue gives; a failed one disturbs nothing |
| `TopicAliasChannel.Agreement` | include/mqtt/topic_alias_recv.hpp:34-77 | over every run: all delivered and all pending messages resolve to the topic meant, and the replayed receiver table extends the sender's |
| `TopicAliasChannel.DrainDelivers` | include/mqtt/topic_alias_recv.hpp:34-77 | delivering the queue resolves every message in order and ends in the replayed table |
| `TopicAliasChannel.MirrorIffNotRefused` | include/mqtt/topic_alias_send.hpp:45-50 | the replayed table stays equal to the sender's exactly when the submission is not a refused insertion |
| `TopicAliasChannel.RefusedBreaksMirror` | include/mqtt/topic_alias_send.hpp:45-50 | a second alias for a topic goes out, and the receiver alone binds it |
| `Store.Store.Emplace` | include/mqtt/store.hpp:47-53 | inserts at the end exactly when the packet identifier is absent |
| `Store.Store.Insert` | include/mqtt/store.hpp:41-54 | true exactly when inserted; a duplicate changes nothing |
| `Store.Store.InsertOrUpdate` | include/mqtt/store.hpp:56-84 | inserts at the end, or replaces in place by what the failed emplace has left of the arguments, and all three indexes stay consistent |
| `Store.ModifyNeverCollides` | include/mqtt/store.hpp:74-82 | the key that modify gives an element is held by no other element |
| `Store.Store.ForEach` | include/mqtt/store.hpp:86-103 | erasing while iterating is a fold over the elements as they were, with a predicate that may carry state; it terminates |
| `Store.SweepVisitsOnce` | include/mqtt/store.hpp:86-103 | a predicate, which may carry state, is called once per element in order |
| `Store.SweepSpares` | include/mqtt/store.hpp:86-103 | and the elements for which its call did not ask for erasure are left in order |
| `Store.SweepIsFilter` | include/mqtt/store.hpp:86-103 | without state that is the filter by the negated predicate |
| `Store.FilterElements` | include/mqtt/store.hpp:86-103 | an element is left exactly if its call did not ask to erase it |
| `Store.Store.EraseId` | include/mqtt/store.hpp:105-108 | removes at most one element and returns how many |
| `Store.Store.EraseIdType` | include/mqtt/store.hpp:110-116 | removes exactly the element with the identifier and the type, if there is one |
| `Store.StepRefines` | include/mqtt/store.hpp:41-120 | every operation, for_each with a stateful predicate included, does to the sequence what it does to an insertion-ordered map |
| `Store.RunRefinesMap` | include/mqtt/store.hpp:41-193 | over every run: one element per packet identifier, and exactly the content of an insertion-ordered map under the same operations, in its order, whatever a move leaves |
| `Store.ContentIffNothingLost` | include/mqtt/store.hpp:62-82 | throughout a run the content is what was given to the store exactly if no update has arguments that a move changes |
| `Store.IndexesSurvive` | include/mqtt/store.hpp:62-82 | identifiers, order and expected types are right, and the content is what was given or what a move leaves of it, unless a for_each tells the two apart |
| `Store.UpdateLosesContent` | include/mqtt/store.hpp:62-82 | an update with a container leaves an empty one in the store |
| `Store.OrderIsInsertionOrder` | include/mqtt/store.hpp:165-193 | over every run the elements stand in the order in which their identifiers were inserted; updates keep the place, whatever a move leaves |
| `SharedSubscriptions.ParseSharedSubscription` | include/mqtt/shared_subscriptions.hpp:26-71 | trimming the view computes the specified split, with the assertion of the pair's constructor |
| `SharedSubscriptions.CreateTopicFilterBuffer` | include/mqtt/shared_subscriptions.hpp:75-101 | copying the parts into one array gives the printed form |
| `SharedSubscriptions.SharedSyntax` | include/mqtt/shared_subscriptions.hpp:51-101 | "$share/", share, "/", filter is parsed to the pair, and printed for it |
| `SharedSubscriptions.PlainSyntax` | include/mqtt/shared_subscriptions.hpp:53-55 | a string that begins otherwise has no share |
| `SharedSubscriptions.BadSyntax` | include/mqtt/shared_subscriptions.hpp:57-70 | behind the prefix exactly an empty share, no slash or an empty filter is refused |
| `SharedSubscriptions.ParsePrint` | include/mqtt/shared_subscriptions.hpp:51-101 | whatever is parsed prints back to the original string |
| `SharedSubscriptions.PrintParse` | include/mqtt/shared_subscriptions.hpp:51-101 | printing and parsing gives the same pair exactly for a non-empty filter with a slash-free share, or with no share if it does not start with the prefix |
| `SharedSubscriptions.SlashMovesOver` | include/mqtt/shared_subscriptions.hpp:51-101 | the share a/b with the filter c is parsed as the share a with the filter b/c |
| `SharedSubscriptions.AcceptedIffPrinted` | include/mqtt/shared_subscriptions.hpp:51-71 | the accepted strings are exactly the printed forms of such pairs; the assertion fails exactly on the empty string |
| `SharedSubscriptions.StrictTotalOrder` | include/mqtt/shared_subscriptions.hpp:36-47 | < is a strict total order whose equivalence is == |
| `SharedSubscriptions.ByShareThenFilter` | include/mqtt/shared_subscriptions.hpp:36-40 | by the share, and then by the filter, at the first different byte |

## Left out

- TopicAlias.Send.InsertOrUpdate: a build without assertions goes on where the model stops; with an alias that
  is rebound to a topic of another alias, `modify` is then left with a colliding element and a rollback that
  restores nothing, for which its library defines no result.
- SharedSubscriptions.ParseSharedSubscription: a build without assertions makes an empty pair of the empty string.
- TopicAliasChannel.Agreement: models the alias part of the endpoint and a lossless channel; QoS,
  acknowledgement and resending are left out.
- Store.Store.ForEach: models predicates that return a verdict and a new state; predicates that throw or
  change the store are left out.
- The v5 messages, whose framing repeats that of v3.1.1 with a property list.
- Sockets, TLS, strands, timers, callbacks and the broker.
- packet_id_manager.hpp, a thin wrapper over the allocator.
- The other stream formats of properties, enum-to-string tables and option bit fields beyond PUBLISH.
- Buffer lifetimes: shared arrays and life keepers.
