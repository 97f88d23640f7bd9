# LL-DLEP: a verified model

LL-DLEP implements the Dynamic Link Exchange Protocol (RFC 8175) between a modem and a router.
This project models its protocol core in Dafny and proves what the code and RFC 8175 rely on.

Every part has two layers. The specification layer says what an operation does as a function on
values, and carries the theorems: invariants of every run, round trips, exact conditions. The
object layer follows the C++ code: classes with its fields, methods with its loops and early
exits, each proved to do exactly what the specification function says, so the theorems hold of
the objects as well. A C++ exception is `None`, a `false` result, or a constructor of a result type.

What the specification functions do is in turn fixed from outside. For formats there is a second,
relational definition, byte by byte (`WireLayout`) and field by field (`TextLayout`), and writing
is proved to be exactly that. For the stateful parts the state after any run is proved to be what
the events of the run say (the `...History` modules): what stands is what was set and not cleared since.

| part | specification | code-shaped |
|---|---|---|
| sized big-endian fields (Serialize.h) | `Serialize` | `Serialize` |
| configuration records and scoped names | `ProtocolConfig` | `ConfigBuilder.Loader` |
| items on the wire | `DataItem`, `WireFormat`, `WireLayout` | `WireReader` |
| items as text | `TextStream`, `TextFormat`, `TextLayout`, `TextRoundTrip`, `TextAndWire` | `TextReader` |
| validation | `Validation` | `Validation` |
| messages | `ProtocolMessage` | `ProtocolMessage.Message` |
| stream reassembly | `SessionReceive` | `SessionReceive.Receiver` |
| transactions and timers | `Transactions`, `Conservation`, `FailureDetection`, `SessionHistory`, `Channel`, `Retransmission`, `Heartbeat` | `PeerSession.Peer` |
| information base, ownership of addresses | `InfoBase`, `IpOwnership`, `OwnershipHistory` | `InfoBaseObjects`, `PeerHandlers.Dlep` |
| announced destinations | `Announce`, `AnnounceHistory` | `AnnounceHandler.Handler` |
| destination advertisement | `Advertisement`, `AdvertHistory` | `AdvertTable.DestAdvert` |

## What the code does that its documentation does not say

Each of these is a lemma with an input, next to the condition under which the promise does hold.

- `from_string` is documented as the inverse of `to_string`. The writer names the items of an item
  whose definition lists none in the scope outside of it, the reader in the (empty) scope of that
  definition. Reading back gives the item if and only if every name resolves
  (`TextRoundTrip.TextRoundTripExactly`), which it does for every item that validates
  (`TextAndWire.ValidItemReadsBack`) and may not for one that only arrives
  (`TextAndWire.UnlistedItemsDoNotReadBack`).
- Parsing a message writes each item as text for the log, and an exception of that writing is a parse
  error. A well-formed message is therefore parsed exactly if its items have a text
  (`ProtocolMessage.BuiltMessageParses`), which every valid one has
  (`Validation.ValidImpliesHasText`) and some other does not (`TextAndWire.MessageWithoutTextIsRefused`).
- A heartbeat interval of 4294967 seconds fits a 32-bit item in milliseconds but arrives as zero,
  which switches the activity check off (`Heartbeat.LargestInMilliseconds`).
- A peer that answers every request once, with the right response, is safe only without
  retransmission. Each message sent again leaves one exchange too many in transit, and in a session
  that lost no interest the peer can end it exactly while there is such an excess
  (`Retransmission.PeerCanEndExactly`, `Channel.AnsweringARetransmissionEndsTheSession`).
- Terminating is absorbing exactly over the runs without an initialization message
  (`FailureDetection.TerminatingIsAbsorbingExactly`), and the termination message stays in the queue
  when another session message is outstanding (`FailureDetection.TerminationOnTheWire`).
- An announce, an initialization response, a link characteristics response and the client's own calls
  store addresses without the check. Over any run, ownership is unique throughout exactly if nothing
  they finally add belongs to somebody else (`IpOwnership.OwnershipIsUniqueExactly`,
  `IpOwnership.AnnouncedAddressGetsTwoOwners`).
- Parsing a message reads the length in its header but compares it with nothing
  (`ProtocolMessage.ParseIgnoresLength`).
- Decoding accepts nesting of any depth, where validation bounds it by the configuration
  (`Validation.DecodingNestsWithoutBound`, `Validation.AcceptsItselfExactly`,
  `Validation.ValidDepthIsBounded`).
- A peer starts without metrics and an update may not add one, so a fresh peer refuses every metric
  (`InfoBase.FreshPeerRejectsEveryMetric`).
- Being heard does not clear an entry's placeholder mark, so a hold-interval purge can forget an
  entry and leave its destinations published (`Advertisement.HeardPlaceholderIsStranded`). A
  placeholder that was not heard is forgotten by the next purge whatever the hold interval, if
  entries expire at all (`Advertisement.UnheardPlaceholderIsForgotten`).
- A destination whose announce the client refused is stored all the same (`Announce.RefusalSticks`).
  An announce is refused as invalid exactly if an earlier one of that destination was not followed by
  its removal (`Announce.InvalidExactly`).

## Model

| member | source | states |
|---|---|---|
| Serialize.SerializeAt | Serialize.h:49-96 | a value is refused, with the buffer untouched, exactly when it does not fit the field; otherwise its big-endian form is appended or replaces as many bytes in place, and an overwrite that runs off the end throws after writing what fitted |
| Serialize.SerializeField | Serialize.h:106-114 | appending a field fails exactly when the value does not fit it |
| Serialize.SerializeWhole | Serialize.h:123-135 | a whole integer is appended as exactly its width in big-endian bytes |
| Serialize.DeserializeField | Serialize.h:200-233 | reading a field fails for lack of input exactly when it is cut off, and for range exactly when the last eight bytes of it denote a number too large for the type; otherwise that number is returned, which for fields of up to eight bytes is the whole number, and the iterator is right behind the field |
| Serialize.DeserializeWhole | Serialize.h:163-186 | reading a whole integer can only fail for lack of input |
| Serialize.ValueOfBigEndian | Serialize.h:73-93 | reading back what was written gives the value, for every value that fits |
| Serialize.BigEndianOfValue | Serialize.h:209-216 | writing what was read gives the same bytes, so a number has one wire form |
| Serialize.ShiftOutOfRange | Serialize.h:73-79 | a field wider than its value starts with zero bytes |
| ProtocolConfig.FirstWithId | ProtocolConfigImpl.cpp:1182-1191 | the lookup finds an entry with the id if and only if the parent lists one |
| ProtocolConfig.FirstWithName | ProtocolConfigImpl.cpp:1147-1157 | the lookup finds an entry with the name and an id of its own if and only if the parent lists one |
| ProtocolConfig.ListedLookupsAreInverse | ProtocolConfigImpl.cpp:1143-1208 | within a parent that lists distinct names and distinct, set ids, looking up a listed name and a listed id undo each other |
| ProtocolConfig.LookupRoundTripExactly | ProtocolConfigImpl.cpp:1143-1208 | in any such scope, an id's name leads back to the id exactly unless a top-level name is shadowed by the parent's own entry |
| ConfigBuilder.Loader.InsertIdNameMapping | ProtocolConfigImpl.cpp:566-592 | a pair is refused exactly when either half has another partner, and the two-way map stays a bijection |
| ConfigBuilder.Loader.ExtractRef | ProtocolConfigImpl.cpp:829-897 | a listed item is accepted exactly when it was defined before and ends up with an id, which is its own one if it has one and the top-level id of its name otherwise |
| ConfigBuilder.Loader.ExtractDataItem | ProtocolConfigImpl.cpp:899-971 | exactly which definitions are accepted; an accepted one records name, id, type, metric flag, units and each listed item under its own id or else the top-level one; the maps stay bijections and nesting stays ordered |
| ConfigBuilder.AcceptedDefinitionKeepsOrder | ProtocolConfigImpl.cpp:829-897 | an accepted definition lists only what was defined before it, and nothing accepted earlier changes |
| ConfigBuilder.NestingIsBounded | ProtocolConfigImpl.cpp:829-897 | a chain of nested items is no longer than the place of its first item in the order of definition |
| ConfigBuilder.NestingIsAcyclic | ProtocolConfigImpl.cpp:829-897 | no item lists itself, at any depth |
| WireFormat.ItemEncodesExactly | DataItem.cpp:379-445 | an item can be serialized exactly when its ids, extension ids, counts and lengths fit their fields at every level, and its size is then the computed one |
| WireFormat.ValueEncodesExactly | DataItem.cpp:379-445 | the same for a value, including the limit of 255 counted items |
| WireFormat.HeaderRoundTrip | DataItem.cpp:426-445 | the header written before a value is read back as the same id and length and delimits the value |
| WireFormat.ItemRoundTrip | DataItem.cpp:379-819 | deserializing a serialized item followed by anything returns the item and stops exactly where it ended |
| WireFormat.ItemsRoundTrip | DataItem.cpp:379-524 | lists of items survive serialization and deserialization |
| WireFormat.WireFormIsPrefixFree | DataItem.cpp:426-445 | if two serialized items start the same byte string, they are the same item |
| WireFormat.ItemNormalForm | DataItem.cpp:525-819 | every accepted item can be serialized again; this saves two bytes for each connection point that spells out port zero, and gives the same bytes if and only if there is none (section 13.2 of RFC 8175) |
| WireFormat.PortNormalForm | DataItem.cpp:295-299 | an optional port re-serializes to itself unless it was spelled out as zero |
| WireFormat.NormalFormDecodesAlike | DataItem.cpp:525-819 | accepted bytes and their re-serialization decode to the same item |
| WireLayout.NumberAtExactly | Serialize.h:49-96 | byte k of a number in a field is its digit of that weight, the most significant first |
| WireLayout.FlatExactly | DataItem.cpp:156-378 | the bytes of a value without items are exactly those that lay out its fields at their offsets, for each of the types |
| WireLayout.ValueLaidOutExactly | DataItem.cpp:379-424 | the same for values with items: tag at 0, count at 2, the reserved zero at 3, the items from 4 on |
| WireLayout.ItemLaidOutExactly | DataItem.cpp:426-445 | bytes are the serialization of an item if and only if they lay out id, length and value in this order, at every level of nesting, with nothing between or behind |
| WireLayout.AcceptedIsLaidOut | DataItem.cpp:525-819 | accepted bytes lay out the item read from them exactly if they spell out no zero port |
| WireLayout.MessageLaidOutExactly | ProtocolMessage.cpp:27-91 | bytes are the frame of a message if and only if they lay out the signal prefix, id, number of bytes behind the header, and items (sections 11.1 to 11.3 of RFC 8175) |
| WireLayout.CompleteExactly | ProtocolMessage.cpp:466-498 | the front of a buffer is a whole message of a size exactly if the header fields at their offsets say so and the bytes are there |
| WireReader.DeserializeItem | DataItem.cpp:525-819 | the iterator-driven reader accepts exactly the bytes the decoding function accepts, with the same item and the same end, and terminates on every input because bytes are used up |
| WireReader.DeserializeHeader | DataItem.cpp:530-551 | id and length are read if and only if the whole item is there |
| WireReader.ReadSubItems | DataItem.cpp:507-522 | nested items are read up to the end of their parent and never past it |
| WireReader.ReadCountedSubItems | DataItem.cpp:771-795 | a counted list is accepted exactly when its reserved byte is zero and the count is the number of items |
| WireReader.ReadFlat | DataItem.cpp:555-819 | the cases of the type switch read what the decoding function says, and only if they end where the length says |
| WireReader.ReadVector | DataItem.cpp:590-690 | a vector takes exactly the rest of its item, field by field |
| WireReader.ReadConnectionPoint | DataItem.cpp:691-726 | a connection point has a port exactly when two bytes are left for it |
| WireReader.DecodeItemExtends | DataItem.cpp:525-819 | bytes behind an item do not change how it is read |
| WireReader.DecodeItemTruncates | DataItem.cpp:525-819 | an item is read from its own bytes alone |
| WireReader.DecodeItemsContinue | DataItem.cpp:507-523 | reading a list can stop after any item and be resumed |
| TextStream.NumberReads | DataItem.cpp:1121-1159 | a number written in decimal is read back, up to whatever follows it |
| TextStream.HexByteReads | DataItem.cpp:1255-1276 | a byte written with two hexadecimal digits is read back |
| TextStream.WordReads | DataItem.cpp:1247-1253 | a word is read back up to the space behind it |
| TextStream.SkipWhitespaceSkips | DataItem.cpp:1085-1093 | skipping whitespace stops at the first other character |
| TextReader.FromString | DataItem.cpp:1555-1562 | the parser returns what the parsing function says, for every text |
| TextReader.Reader.FromStream | DataItem.cpp:1513-1553 | for every stream, item, exception and remaining stream are those of the parsing function |
| TextReader.Reader.SubDataItemsFromStream | DataItem.cpp:1482-1511 | the loop reads items up to the closing brace |
| TextReader.Reader.ValueFromStream | DataItem.cpp:1464-1473 | a value of each type is read in base 10, hardware addresses in base 16 |
| TextReader.Reader.ParseVector | DataItem.cpp:1168-1205 | numbers are collected until one cannot be read, and the stream is good again |
| TextReader.Reader.ParseArray2 | DataItem.cpp:1214-1239 | an array needs all of its numbers |
| TextReader.Reader.ParseMac | DataItem.cpp:1255-1281 | bytes are collected for as long as a colon follows |
| TextReader.Reader.AddressChars | DataItem.cpp:1295-1311 | the characters of an address are those before a separator, a space or the end |
| TextReader.Reader.CheckFieldSeparator | DataItem.cpp:1103-1110 | exactly a semicolon or slash is taken |
| TextReader.Reader.ParseUint | DataItem.cpp:1121-1159 | a number is refused if it cannot be read or is too large for its type |
| TextReader.Reader.SkipWhitespace | DataItem.cpp:1085-1093 | the loop leaves the stream at the first character that is no space |
| TextRoundTrip.VectorReads | DataItem.cpp:853-866 | a vector, empty or not, is read back, and the text behind it is not lost |
| TextRoundTrip.MacReads | DlepMac.cpp:31-44 | a non-empty hardware address is read back from its text |
| TextRoundTrip.PlainReads | DataItem.cpp:825-1014 | every value without items is read back from its text, if strings are one word and address texts invert |
| TextRoundTrip.ItemReads | DataItem.cpp:1050-1067 | inside any text, reading an item gives it exactly when its names resolve, and leaves the stream where the next item can be read |
| TextRoundTrip.ItemsRead | DataItem.cpp:1016-1025 | the same for the items between braces |
| TextRoundTrip.TextRoundTripExactly | DataItem.h:566-569 | for every item tree that has a readable text, reading the text gives the item if and only if every name the writer chose resolves to its id in the reader's scope |
| TextRoundTrip.TextRoundTrip | DataItem.h:566-569 | in particular the two are inverse wherever ids resolve in scope and definitions of items with items list some |
| TextFormat.HasTextExactly | DataItem.cpp:1050-1067 | writing an item throws exactly when some id in it has no name or definition in the scope in which the writer looks, whatever its values |
| TextLayout.PlainExactly | DataItem.cpp:825-1014 | a text is that of a value without items if and only if it consists of the value's fields in order, numbers in shortest decimal, hardware addresses in two-digit base 16, with commas, colons and semicolons between them |
| TextLayout.ItemTextExactly | DataItem.cpp:1016-1067 | a text is that of an item if and only if it is the name of its id in scope, a space, and the text of its value, items inside braces looked up in the definition that lists items |
| TextLayout.ReadItemIsNamed | DataItem.cpp:1482-1553 | whatever text an item is read from, its id and type are those of its first word as a name in scope, and so on for the items inside; a text that does not start with such a name is refused |
| TextLayout.SeparatorsExactly | DataItem.cpp:1103-1110 | between the fields of a value a semicolon or a slash is read, and nothing else |
| TextAndWire.ValidItemReadsBack | DataItem.h:566-569 | with a bijective top level and definitions that list distinct entries, every item that validates at the top level reads back from its text |
| TextAndWire.TwoNamesConfigIsAccepted | ProtocolConfigImpl.cpp:829-971 | a configuration with two names for one id that loading accepts and whose entries are distinct |
| TextAndWire.UnlistedItemsDoNotReadBack | DataItem.cpp:1059-1062 | in it an item that arrives on the wire and can be written, and is not read back |
| TextAndWire.MessageWithoutTextIsRefused | ProtocolMessage.cpp:624-642 | and a well-formed message whose items decode and which parsing refuses because they cannot be written |
| Validation.CountItems | DataItem.cpp:1757-1772 | one pass counts every id |
| Validation.ValidateOccurrences | DataItem.cpp:1750-1855 | counting, checking and erasing accepts exactly what the rules say, also for repeated rules |
| Validation.OccurrencesAreExact | DataItem.cpp:1750-1855 | with distinct ids, items are accepted exactly when every listed id occurs at exactly one, at least one, at most one or any number of places as its rule says, and nothing else occurs |
| Validation.RepeatedRequirementRejects | DataItem.cpp:1778-1830 | an item required by two rules is rejected however often it occurs |
| Validation.ValidateItem | DataItem.cpp:1723-1748 | the recursive check accepts exactly the valid trees |
| Validation.ValidateItems | DataItem.cpp:1682-1706 | a list is accepted exactly when all its items are |
| Validation.LeafValidExactly | DataItem.cpp:1568-1680 | a value without items is valid exactly if it has its type, a percentage is at most a hundred, a status has a name, an address is added or dropped, and a subnet mask counts no more bits than its address has |
| Validation.ValidatesEveryNode | DataItem.cpp:1682-1748 | a tree is accepted if and only if every node, in the scope of its parent, resolves, has its type, is in range and counts its items |
| Validation.ValidImpliesWellTyped | DataItem.cpp:1723-1748 | what validates survives the wire |
| Validation.ValidImpliesHasText | DataItem.cpp:1723-1748 | what validates can be written as text |
| Validation.ValidDepthIsBounded | DataItem.cpp:1723-1748 | valid items nest no deeper than the place of their definition |
| Validation.DecodingNestsWithoutBound | ProtocolConfigImpl.cpp:1192-1208 | every container that accepts itself decodes to any depth its length field can hold, and validation rejects all of it if the container does not list itself |
| Validation.AcceptsItselfExactly | ProtocolConfigImpl.cpp:1192-1208 | in a loaded configuration a container accepts itself, by the top-level fallback, exactly if it lists nothing under its own id |
| ProtocolMessage.IsCompleteMessage | ProtocolMessage.cpp:466-498 | the front of a buffer is complete, incomplete or throws as its header says |
| ProtocolMessage.BuiltMessageParses | ProtocolMessage.cpp:538-651 | a built message parses to the id and items that went in if these have a text, and fails to parse otherwise |
| ProtocolMessage.BuiltMessageFrames | ProtocolMessage.cpp:466-498 | with anything behind it, the reported size is exactly that of the message |
| ProtocolMessage.ParseIgnoresLength | ProtocolMessage.cpp:590-637 | messages that differ in the length field only parse alike |
| ProtocolMessage.ParsedMessageRebuilds | ProtocolMessage.cpp:419-440 | the items of any accepted message, framed anew, are accepted again as the same message and are no longer |
| ProtocolMessage.MessageValidExactly | ProtocolMessage.cpp:653-715 | a message is valid exactly when its definition among its kind lets its sender send it, all counts are admitted, nothing unlisted occurs and every node of every item is right |
| ProtocolMessage.UndefinedIsInvalid | ProtocolMessage.cpp:653-715 | a message whose id has no definition among its kind is never valid |
| ProtocolMessage.ValidMessageIsReceivedValid | ProtocolMessage.cpp:653-715 | a valid message is received as it was built and is valid there |
| ProtocolMessage.Message.AddHeader | ProtocolMessage.cpp:27-64 | a header of the named message, looked up as a signal first, is written with a length of zero exactly when the name is known and its id fits |
| ProtocolMessage.Message.UpdateMessageLength | ProtocolMessage.cpp:453-463 | the length field in the middle of the buffer becomes the number of bytes behind the header, and nothing else changes |
| ProtocolMessage.Message.AddDataItem | ProtocolMessage.cpp:66-83 | after an item was added the buffer is the frame of all items added so far; which exception is thrown when, and what is left behind |
| ProtocolMessage.Message.AddDataItems | ProtocolMessage.cpp:84-91 | all items are added exactly when all fit, all have names and the total fits the length field |
| ProtocolMessage.Message.ClearDataItems | ProtocolMessage.cpp:402-415 | only the header is left, with a length of zero |
| ProtocolMessage.Message.Parse | ProtocolMessage.cpp:538-651 | the object holds the id and items of the parsing function, or it throws when that does, for lack of bytes, an unknown id, a bad item or one without a text |
| ProtocolMessage.Message.ParseItems | ProtocolMessage.cpp:605-637 | the loop reads the items to the end of the buffer, up to the first that is bad or cannot be written |
| ProtocolMessage.Message.SkipPrefix | ProtocolMessage.cpp:563-586 | a signal must start with the prefix and have something behind it |
| ProtocolMessage.Message.RebuildFromDataItems | ProtocolMessage.cpp:418-440 | a rebuilt message has the bytes of a fresh one; if its items fit, are named and are well typed, parsing them back succeeds exactly if they have a text |
| ProtocolMessage.Message.Validate | ProtocolMessage.cpp:653-715 | the checks in order accept exactly the valid messages |
| SessionReceive.Receiver.HandleSessionReceive | Peer.cpp:943-1047 | a read dispatches exactly the messages it completes, keeps the rest at the front of the fixed buffer, and leaves room unless the message there can never fit |
| SessionReceive.Receiver.DispatchFront | Peer.cpp:1007-1030 | the first message is handed on and the rest is moved to the front in place |
| SessionReceive.ChunkingDoesNotMatter | Peer.cpp:976-1047 | what is dispatched and what stays depend on the bytes received, not on the reads |
| SessionReceive.FramesContinue | ProtocolMessage.cpp:466-498 | framing can be interrupted anywhere and resumed from the tail |
| SessionReceive.RoomForTheNextRead | Peer.cpp:1032-1047 | the buffer of 65536 bytes never overflows and has a free byte while its message is of admissible size |
| SessionReceive.OversizedMessageNeverLeaves | ProtocolMessage.h:50 | a message announced as larger than the buffer is never dispatched, nor is anything behind it |
| SessionReceive.MessagesArriveIntact | Peer.cpp:943-1047 | whatever part of a peer's messages has arrived, in whatever reads, those dispatched are the first ones sent, in order, and each parses to its id and items exactly if these have a text |
| Transactions.OneInFlightPerDestination | Peer.h:300-307 | in every reachable state no queue is empty, entries sit under their destination, only the head was sent, and at most max(1, tries) times (section 8 of RFC 8175) |
| Transactions.StepKeepsInFlight | Peer.cpp:212-457 | every event keeps that invariant |
| Conservation.NothingIsLostOrReordered | Peer.cpp:231-321 | over any run, per destination: enqueued is acknowledged followed by pending, in order, and transmissions with repeats collapsed are those of them ever sent, in that order |
| Conservation.WireMatchesAcknowledgements | Peer.cpp:426-456 | if the peer never lost interest, the transmissions are the acknowledged messages and the head |
| FailureDetection.SilenceIsDetected | Peer.cpp:400-502 | an unanswered head ends the session by send time + max(1, tries) x (timeout + 1), whatever else is sent and in whatever order queues are visited |
| FailureDetection.SilenceIsDetectedExactly | Peer.cpp:400-457 | with nothing else outstanding the session ends at that second and not before |
| FailureDetection.ShunnedQueueIsFrozen | Peer.cpp:219-229 | no timer event sends the head of a queue the peer is not interested in or counts a try of it; the timer leaves the session alone while that head is not late or has tries left, and ends it if the head is late and has used them up |
| FailureDetection.TerminationOnTheWire | Peer.cpp:830-866 | the configured termination message is queued with its bytes, and is what is transmitted at once exactly when no session message is outstanding; nothing else is sent or touched |
| FailureDetection.TerminateIsIdempotent | Peer.cpp:830-866 | terminating again changes nothing |
| FailureDetection.TerminatingIsAbsorbingExactly | Peer.cpp:1889-1971 | a terminating session stays terminating throughout a run exactly if the run has no initialization message |
| FailureDetection.TerminatingIsNotAbsorbing | Peer.cpp:1216-1218 | an initialization message brings a terminating session back |
| SessionHistory.EndsExactly | Peer.cpp:265-502 | an event ends a live session exactly if it is a failure, an end from outside, a response other than the one awaited, or a timer that finds the peer not heard for its threshold of intervals (in 32-bit arithmetic) or a late message out of tries; no other event but an initialization changes the state |
| SessionHistory.TerminatedExactly | Peer.cpp:817-866 | over any run a session is over exactly if such an event came and no initialization message since |
| SessionHistory.GivesUpExactly | Peer.cpp:399-457 | the pass over the queues ends the session exactly if some queue it looks at has a late head that was sent as often as allowed |
| SessionHistory.TimerSendsAgainExactly | Peer.cpp:399-457 | otherwise it sends the head of each queue that is late and of interest again, once, and leaves every other queue alone |
| SessionHistory.TimerExactly | Peer.cpp:459-502 | a timer that finds the peer inactive ends the session whatever is queued and sends nothing again; one that finds it active does what the pass does |
| SessionHistory.NotInterestedExactly | Peer.cpp:199-209 | over any run a destination is of no interest exactly if the peer said so and did not take it back |
| SessionHistory.StepCarries | Peer.cpp:211-347 | every event adds to the queues and the log exactly what it asks to be sent |
| SessionHistory.RequestsAreCarried | Peer.cpp:211-347 | over any run and for every destination, what was acknowledged and then what is pending are exactly the requests made of it, in order, and every pending entry and transmission has the response and the bytes of its request, the termination message among them |
| Channel.ResponsesAreAlwaysExpected | Peer.cpp:266-347 | with ordered channels, no retransmission and one answer to each request, every response that can arrive is the expected one and the session is not ended |
| Channel.MoveInStep | Peer.cpp:212-347 | every move without retransmission keeps: a destination has exactly one request, owed answer or response in transit if its head was sent, and none otherwise |
| Channel.WorldsRunTheSession | Peer.cpp:211-502 | in every reachable world the session has run some sequence of its own events, so the theorems about runs hold of it |
| Channel.AnsweringARetransmissionEndsTheSession | Peer.cpp:426-456 | one retransmission answered twice ends the session |
| Retransmission.ExcessLaw | Peer.cpp:212-457 | with late timers allowed: what is in transit beyond what is awaited grows by one with each message sent again, shrinks by one with each response that was not awaited, and changes with nothing else |
| Retransmission.ExcessIsWhatWasSentAgain | Peer.cpp:399-457 | over any run the excess of an exchange is the number of times it was sent again less the responses wasted, and never negative |
| Retransmission.CanEndExactly | Peer.cpp:265-347 | in any world where everything awaited is in transit and every head was sent, a peer that answers each request once can end the session exactly if some excess is positive |
| Retransmission.PeerCanEndExactly | Peer.cpp:265-457 | in every world reached without a loss of interest it can do so exactly if something was sent again more often than its responses were wasted |
| Retransmission.UnsentHeadAbsorbsAnExcess | Peer.cpp:219-229 | with a shunned queue whose next message waits for the same response the peer cannot, although there is an excess |
| Heartbeat.AddHeartbeatInterval | ProtocolMessage.cpp:120-170 | the item holds the interval in the configured unit, wrapped to 32 and then to the item's width |
| Heartbeat.StoreHeartbeatInterval | Peer.cpp:1106-1138 | the stored seconds are the received value rounded to nearest, in 32-bit arithmetic |
| Heartbeat.RoundingIsWithinHalfExactly | Peer.cpp:1132-1137 | the rounding is off by at most half a unit divisor exactly when adding the half does not wrap |
| Heartbeat.IntervalSurvivesExactly | ProtocolMessage.cpp:131-170 | an interval in seconds is recovered exactly when its scaled value fits the item and the receiver's addition does not wrap |
| Heartbeat.LargestInMilliseconds | Peer.cpp:1132-1137 | 4294966 seconds is the largest interval that survives 32-bit milliseconds; the next arrives as zero |
| Heartbeat.ActiveExactly | Peer.cpp:383-386 | without wrap a peer is active exactly until its threshold of intervals after it was last heard |
| Heartbeat.StepKeepsReceiveTime | Peer.cpp:976-981 | only received bytes move the time of last receipt |
| Heartbeat.ToleratedDelayIsExact | Peer.cpp:360-397 | a peer that sends a heartbeat every interval is never timed out, for all delays up to a bound, if and only if interval plus bound do not exceed interval times threshold (section 7.3.1 of RFC 8175) |
| PeerSession.Peer.SendMessageExpectingResponse | Peer.cpp:211-263 | a message is queued once, and written if it is the head; nothing happens for a destination of no interest |
| PeerSession.Peer.Enqueue | Peer.cpp:231-245 | the message goes to the back of its own queue |
| PeerSession.Peer.WriteHead | Peer.cpp:247-262 | the head is written, its try counted and its time noted, in place |
| PeerSession.Peer.PopHead | Peer.cpp:297-313 | the head is removed, and the queue with its last entry |
| PeerSession.Peer.HandleResponse | Peer.cpp:265-347 | a matching response pops the head and sends the next; any other ends the session |
| PeerSession.Peer.CheckForRetransmits | Peer.cpp:399-457 | late heads are resent until one has used up its tries, which ends the session |
| PeerSession.Peer.HandleTimeout | Peer.cpp:459-502 | inactivity is checked first, in the code's 32-bit arithmetic, and ends the session; otherwise retransmission is checked |
| PeerSession.Peer.Terminate | Peer.cpp:829-866 | the session is marked and the termination message sent or queued, once |
| PeerSession.Peer.SendRequest | Peer.cpp:592-617 | a message built for a destination is sent or queued, and dropped if the destination is of no interest |
| PeerSession.Peer.NotInterested | Peer.cpp:199-209 | the destination joins those of no interest and its queue is left alone |
| PeerSession.Peer.RegainInterest | Peer.cpp:1420-1429 | the destination leaves them again |
| PeerSession.Peer.Establish | Peer.cpp:1216-1218 | an initialization message sets the state, whatever it was |
| PeerSession.Peer.Stop | Peer.cpp:817-826 | the session is marked as ended without a message |
| PeerSession.Peer.Receive | Peer.cpp:976-981 | arriving bytes move the time of last receipt |
| PeerSession.Peer.StoreInterval | Peer.cpp:1106-1138 | the interval in seconds is recorded |
| InfoBase.IpEqualIsKeyEquality | DataItem.cpp:1861-1958 | the comparison of address items is equality of type, address and mask, and no item without such a key equals anything |
| InfoBase.UpdateIpDataItems | InfoBaseMgr.cpp:26-68 | the pass over the list erases, appends or does nothing as the specification says |
| InfoBase.FindIpDataItem | DataItem.cpp:1965-1977 | the search finds an entry exactly when an equal one is there |
| InfoBase.UpdateIpsRefinesSet | InfoBaseMgr.cpp:26-68 | one update keeps the list free of equal entries and of entries without the add flag, and acts on its keys as insertion or removal |
| InfoBase.FoldIpsRefinesSet | InfoBaseMgr.cpp:26-68 | any sequence of updates acts as the fold of its adds and drops on a set |
| InfoBase.KeyAfterExactly | InfoBaseMgr.cpp:26-68 | that is, an address is present exactly if its last mention adds it, or it was there and is not mentioned |
| InfoBase.UpdateDestinationSplits | InfoBaseMgr.cpp:108-138 | metrics and addresses of an update do not interfere |
| InfoBase.PeerUpdateIsAtomic | InfoBaseMgr.cpp:416-478 | a peer update changes nothing if one metric is unknown, never adds a metric, leaves destinations' addresses alone, and otherwise leaves every destination agreeing with the peer on each updated metric |
| InfoBase.FoldMetricsExactly | InfoBaseMgr.cpp:108-138 | after an update each metric holds the last item that mentions it, and those not mentioned what they held |
| InfoBase.DestinationMetricsExactly | InfoBaseMgr.cpp:75-138 | so for a destination that is updated and one that is new; what response is owed does not change |
| InfoBase.PeerUpdateExactly | InfoBaseMgr.cpp:222-258 | an applied peer update leaves peer and destinations with the last item of each metric, and adds every item that is no metric, address or status as often as it came |
| InfoBase.FreshPeerRejectsEveryMetric | InfoBaseMgr.cpp:426-441 | a peer that starts without metrics refuses every update that carries one |
| InfoBaseObjects.DestinationData.Update | InfoBaseMgr.cpp:108-138 | the loop records each metric and address in place |
| InfoBaseObjects.PeerData.AddDestination | InfoBaseMgr.cpp:260-288 | a new destination is stored with its items exactly if there was none |
| InfoBaseObjects.PeerData.RemoveDestination | InfoBaseMgr.cpp:323-352 | exactly the named destination goes |
| InfoBaseObjects.PeerData.UpdateOne | InfoBaseMgr.cpp:304-321 | exactly the named destination is updated, through its shared object |
| InfoBaseObjects.PeerData.NeedsResponse | InfoBaseMgr.cpp:569-579 | the owed response of the named destination is set, and nothing else |
| InfoBaseObjects.PeerData.UpdateDataItemsHelper | InfoBaseMgr.cpp:222-258 | each item is stored by kind, and the metrics are collected for the destinations |
| InfoBaseObjects.PeerData.UpdateAllDestinations | InfoBaseMgr.cpp:448-466 | every destination object receives the metrics |
| InfoBaseObjects.PeerData.UpdateDataItems | InfoBaseMgr.cpp:416-478 | the object ends in the state of the specification, and reports whether all metrics were known |
| InfoBaseObjects.PeerData.FindIpDataItem | InfoBaseMgr.cpp:596-618 | an address is found exactly if the peer or one of its destinations holds it |
| IpOwnership.SearchIsComplete | Peer.cpp:2076-2095 | the handlers' search finds an address if and only if some owner in the whole base holds it |
| IpOwnership.UpdateKeepsUniqueExactly | Peer.cpp:2062-2109 | an update keeps ownership unique if and only if what it finally adds is held by nobody else |
| IpOwnership.ValidatedUpdate | Peer.cpp:2062-2109 | a validated update adds nothing that somebody else holds, and drops nothing that it adds |
| IpOwnership.UncheckedUpdateKeepsUniqueExactly | Peer.cpp:1569-1573 | an announce, an initialization response or a link characteristics response, none of which is validated, keeps ownership unique exactly when what it finally adds, if it is stored, belongs to nobody else |
| IpOwnership.LocalCallKeepsUniqueExactly | DlepServiceImpl.cpp:99-278 | the same for the client's updates of the local node and its destinations |
| IpOwnership.OwnershipIsUniqueExactly | Peer.cpp:1262-1809 | over any run of all these handlers and calls that starts unique, ownership is unique throughout exactly if every unvalidated event meets that condition when it comes |
| IpOwnership.AnnouncedAddressGetsTwoOwners | Peer.cpp:1569-1573 | whatever address some owner holds, an announce of a new destination with it gives it a second owner |
| IpOwnership.OwnershipStaysUnique | Peer.cpp:1334-1665 | in particular over any run of validated session updates, destination ups and updates, removals, and peers that come and go |
| IpOwnership.StoredAddressesAreFound | Peer.cpp:2062-2109 | every address that an accepted message adds is found by the next search |
| IpOwnership.UniqueMeansNoTwoEqual | DataItem.cpp:1909-1958 | unique ownership means that no two entries anywhere are equal up to `ip_equal` |
| OwnershipHistory.KeysAndFlagsExactly | DataItem.cpp:1861-1958 | only addresses and subnets have a key, they are added exactly if their flags are odd, and two are equal exactly if they are the same but for the flags |
| OwnershipHistory.AddressItemsExactly | ProtocolConfigImpl.cpp:1508-1541 | a defined item is treated as an address exactly if its value is an address, a subnet or a connection point, and as a metric if its definition says so |
| OwnershipHistory.ConnectionPointsAreRefused | DataItem.cpp:1861-1958 | no update with a connection point passes the check, since it counts as dropped and is equal to nothing |
| OwnershipHistory.CheckIsExact | Peer.cpp:2062-2109 | the check of an update of an owner accepts it if and only if every address it adds is held by nobody and every one it drops is held by that owner |
| OwnershipHistory.OutcomesExactly | Peer.cpp:1333-1673 | when each checked handler applies, refuses, or ends the session; unless it applies, nothing changes |
| OwnershipHistory.HoldsExactly | Peer.cpp:1262-1809 | after any event an owner holds an address exactly if the event is applied to it and its last mention adds the address, or it held it before and the event neither takes the owner away nor, applied to it, mentions the address |
| OwnershipHistory.DropSucceeds | Peer.cpp:2098-2104 | an update that drops an address its destination holds is applied, and then nobody holds it |
| OwnershipHistory.KnownExactly | InfoBaseMgr.cpp:260-352 | over any run a peer or destination is known exactly if some event introduced it and none took it away since |
| PeerHandlers.Dlep.ValidateIpDataItems | Peer.cpp:2062-2109 | the loop accepts exactly: every add is held by nobody, every drop is among the owner's addresses |
| PeerHandlers.Dlep.IsHeld | Peer.cpp:2076-2095 | the search over local node and peers finds exactly what the base holds |
| PeerHandlers.Dlep.HandlePeerUpdate | Peer.cpp:1333-1354 | validated, then applied as a whole or refused, on the shared objects |
| PeerHandlers.Dlep.HandleDestinationUp | Peer.cpp:1388-1459 | refused if known, session ended if invalid, stored only if the client accepts |
| PeerHandlers.Dlep.HandleDestinationUpdate | Peer.cpp:1642-1673 | session ended if unknown or invalid, applied otherwise |
| PeerHandlers.Dlep.HandleDestinationDown | Peer.cpp:1675-1709 | the peer's own destination goes with its addresses, one of ours is of no interest to it, and any other ends the session |
| PeerHandlers.Dlep.StoreAnnouncedDestination | Peer.cpp:1553-1579 | an announced destination is stored with its addresses, unvalidated, if it is new |
| PeerHandlers.Dlep.HandlePeerInitializationResponse | Peer.cpp:1311-1313 | the peer is updated as a whole or not at all, unvalidated |
| PeerHandlers.Dlep.HandleLinkCharacteristicsResponse | Peer.cpp:1793-1808 | a known destination is updated, unvalidated |
| PeerHandlers.Dlep.AddPeer | InfoBaseMgr.cpp:632-640 | a new session starts with an empty peer and touches no other |
| Announce.AnnouncesAreConserved | Peer.cpp:1531-1634 | over any run, every announce handled is answered once, or still owed, or was owed when its destination was removed; at most one is owed per destination and none for a published one |
| Announce.AcceptedIsAnsweredWhenUp | Peer.cpp:520-590 | an accepted announce is answered by the next local up of that destination, whatever comes between |
| Announce.RefusalSticks | Peer.cpp:1553-1616 | once a client refused an announce, every later one is refused as invalid until the destination is taken down, even if it has come up since |
| Announce.StoredExactly | Peer.cpp:1569-1573 | a destination is stored exactly if some announce of it was not followed by its removal |
| Announce.InvalidExactly | Peer.cpp:1612-1616 | an announce is refused as invalid, without being stored or the client being asked, exactly in that case |
| Announce.StoredUntilRemoved | Peer.cpp:1569-1573 | nothing but its removal makes the modem forget an announced destination |
| AnnounceHistory.HistoryDecides | Peer.cpp:520-617 | over any run, whether a destination is published, stored, of no interest, or owed which response follows from what happened to it last |
| AnnounceHistory.DestinationsAreKept | InfoBaseMgr.cpp:260-288 | a destination is kept with the items of the announce or the call that brought it, whatever comes after |
| AnnounceHistory.StepSendsWhatIsDue | Peer.cpp:541-589 | each event tells the router exactly what is due: a destination that comes up is told as the owed response or else as a Destination Up, unless the router has lost interest; one that goes as a Destination Down |
| AnnounceHistory.RouterIsToldWhatIsDue | Peer.cpp:520-617 | over any run the router is told, in order, exactly what the history of each destination calls for |
| AnnounceHandler.Handler.SendExpectingResponse | Peer.cpp:219-229 | a message that expects a response is dropped if the router is not interested in its destination |
| AnnounceHandler.Handler.DestinationUp | Peer.cpp:520-590 | the owed response is sent and cleared, or a Destination Up is sent if the router is interested |
| AnnounceHandler.Handler.FindNeedsResponse | InfoBaseMgr.cpp:581-594 | the owed response of a destination, and none for an unknown one |
| AnnounceHandler.Handler.HandleDestinationAnnounce | Peer.cpp:1530-1634 | answered at once when published or refused, owed when the client accepts, and refused as invalid when already stored |
| AnnounceHandler.Handler.HandleDestinationDown | Peer.cpp:1675-1716 | a destination of the router is removed, one of ours is no longer of interest, any other is an error |
| AnnounceHandler.Handler.AddLocalDestination | InfoBaseMgr.cpp:260-288 | a new local destination is stored, and told once if the router is interested or owed an answer |
| AnnounceHandler.Handler.RemoveLocalDestination | InfoBaseMgr.cpp:323-352 | a local destination is removed, and told once if the router is interested |
| AnnounceHandler.Handler.RemoveDestination | Peer.cpp:2048-2053 | the client's removal of an announced destination cancels what is owed |
| Advertisement.AgreementIsKeptExactly | DestAdvert.cpp:119-189 | from a state where exactly the destinations of radios in state up are published, an event leads to such a state if and only if a condition on table and event holds: it withdraws nothing that another radio up advertises, names no published destination as a radio, and strands no placeholder |
| Advertisement.OwnersAreHarmless | DestAdvert.cpp:364-410 | when every destination belongs to one radio that condition is only that the purge strands nothing, and no addition or removal fails |
| Advertisement.PublishedIsWhatUpRadiosAdvertise | DlepServiceImpl.cpp:54-227 | over any run of advertisements, client calls and purges that strands nothing, the published set is the union of what radios in state up advertise, and nothing fails |
| Advertisement.WithoutHoldIntervalTheyAgree | DestAdvert.cpp:371-385 | in particular without a hold interval |
| Advertisement.HeardPlaceholderIsStranded | DestAdvert.cpp:371-385 | with one, a radio brought up and then heard is forgotten with its destinations left published |
| Advertisement.UnheardPlaceholderIsForgotten | DestAdvert.cpp:388-406 | a placeholder not heard survives the next purge exactly if entries do not expire and the hold interval is off or not over |
| AdvertHistory.KnownExactly | DestAdvert.cpp:139-189 | over any run a radio is known exactly if it was heard or brought up and no purge forgot it since |
| AdvertHistory.UpExactly | DlepServiceImpl.cpp:54-254 | and up exactly if the client brought it up and neither took it down nor was it forgotten since |
| AdvertHistory.HeardExactly | DestAdvert.cpp:139-189 | its time and advertisement are those of when it was last heard, or made as a placeholder |
| AdvertHistory.ItemsExactly | DlepServiceImpl.cpp:54-178 | its items are those the client gave last while it was known |
| AdvertHistory.HeardRadioIsKeptExactly | DestAdvert.cpp:388-406 | a radio heard and then no more is known exactly as long as every purge comes before the configured count of its report intervals is over |
| AdvertHistory.PublishedExactly | DestAdvert.cpp:119-410 | over any run without stranding, a destination is published exactly while the radio it belongs to is known, up, and advertises it |
| AdvertHistory.DestinationExactly | DlepServiceImpl.cpp:124-142 | a newly published destination gets the items of its radio, an update reaches every published destination of a radio that is up, and nothing else changes |
| AdvertHistory.StatusesExactly | DlepServiceImpl.cpp:54-254 | when the client is told that a radio exists or does not |
| AdvertTable.GetDifference | DlepMac.h:50-74 | the nested loops compute set difference |
| AdvertTable.DestAdvert.HandleMessage | DestAdvert.cpp:119-189 | the table and the published set end as specified, and the result says whether every addition and removal succeeded |
| AdvertTable.DestAdvert.DestinationUp | DlepServiceImpl.cpp:54-98 | new state and returned status are as specified |
| AdvertTable.DestAdvert.DestinationUpdate | DlepServiceImpl.cpp:124-178 | the same, for an update |
| AdvertTable.DestAdvert.DestinationDown | DlepServiceImpl.cpp:197-254 | the same, for a down, including names the table does not know |
| AdvertTable.DestAdvert.HandlePurgeAdvertTimeout | DestAdvert.cpp:364-410 | erasing while iterating, in any order, ends in the specified table and published set |
| AdvertTable.DestAdvert.PurgeEntry | DestAdvert.cpp:368-408 | one entry is kept, forgotten, or withdrawn and forgotten, the hold interval first, the expiry in 32-bit arithmetic |
| AdvertTable.DestAdvert.AddDestinations | DestAdvert.cpp:158-169 | the loop adds what was missing and leaves the rest alone, and reports a duplicate |
| AdvertTable.DestAdvert.RemoveDestinations | DestAdvert.cpp:174-184 | the loop removes what is there, and reports what was not |
| AdvertTable.DestAdvert.UpdateDestinations | DlepServiceImpl.cpp:139-142 | the loop updates what is there |

## Left out

- Sockets, timers, threads, mutexes and the resolver: a read is a chunk of bytes, a write an entry of a log, the clock a parameter, and each handler one atomic step. Client callbacks return a value and do not call back into the service.
- Peer discovery (`PeerDiscovery.cpp`) and the multicast sender: mostly socket calls and address selection.
- XML and schema handling: `ConfigBuilder` starts from extracted definition records. The extraction of signals, status codes, modules and extensions is left out; it is the same pattern with fewer constraints.
- Field sizes are one to eight bytes, as config/protocol/protocol-config.xsd admits.
- Protobuf encoding of advertisements: `Advertisement` starts from a decoded one. Its sequence number and uptime are carried by the program but never looked at.
- Text of IP addresses: the address library's two functions are parameters, and the round trip asks of each address that they invert and that the text is one word without separators.
- Text of error messages and of the log: a check accepts or refuses. That parsing fails when an item cannot be written for the log is modelled, what is written is not.
- Response suppression by `ack-probability` is off, and other configuration parameters are constant over a run.
- Iteration order of C++ maps: the timer visits queues in an order that is a parameter, and loops over other maps take their elements in any order.
- Sizes near 2^64: message building requires a total below 2^64 bytes, and sizes are unbounded integers otherwise.
- `is_metric` and `is_ipaddr` throw for an id without a definition; the model answers no, since handlers run on validated messages.
- Telling other peers about changes: `InfoBaseObjects` keeps the data, and only `AnnounceHandler` logs what one router is told. The data items that fill a response are left out there.
- The service without destination advertisement calls the peer data directly and adds nothing to `InfoBaseObjects`.
- The set of destinations a node itself advertises: a plain set of addresses.
- The client's calls on the local node are events of `IpOwnership`; `PeerHandlers` has methods for the messages of peers only.
- Retransmission.PeerCanEndExactly: holds for runs in which the peer keeps its interest, because the head of a shunned queue is not sent and may take a response meant for another message; `Retransmission.ExcessLaw` covers all runs.
- SessionReceive.MessagesArriveIntact: holds for messages whose total size is at most the buffer's, because a larger one is never dispatched.
- Heartbeat.ToleratedDelayIsExact: holds while receive times stay below 2^32 seconds, because the code truncates the end of the active time to 32 bits.
