# LightningCast device: JSON, mDNS responder, command hand-off and framing

A Dafny model of the three parts of this repository that carry its logic, with machine-checked proofs of what they
promise. `dafny verify dfyconfig.toml` checks the whole project.

## What is modelled

**JSON** (`jsoncpp.cpp`). Every protocol message is written by `FastWriter` and read by `Reader` without comment
collection.

- `JsonStrings`, `JsonNumbers`: quoting and escape decoding of arbitrary bytes; integer printing and decoding in 64 bits.
- `JsonValue`: the value tree. A container is a list of slots with strictly ascending keys, which is how `std::map`
  is iterated; arrays may have holes. The order `operator<` on real-free trees.
- `JsonTokens`, `JsonReader`: the tokeniser and the recursive descent as functions of a document and a position,
  with recovery and the limit of 1000 levels. `JsonParser.Reader` is the same parser with `current_`, `nodes_` and
  `errors_` as mutable fields; each of its methods is proved against these functions.
- `JsonText`: the token sequence of a value, the predicate `Spelled` (a text is these tokens with white space around
  them), and the normal form a parsed value has: integers tagged signed up to 2^31-1 and unsigned above, strings in
  canonical UTF-8, holes filled with null.
- `JsonRoundTrip`, `JsonWriters`, `JsonStyledWriter`, `JsonNorm`: both writers, as classes that append to `document_`,
  produce texts that spell the value's tokens, and any such text parses to the normal form.
- `JsonFaithful`, `JsonValid`: when a value reads back as itself, and what the reader's own values are like.
- `JsonArrays`: `append`, `insert`, `removeIndex` and `resize` over the index-keyed map, against list operations.

**mDNS responder** (`tinysvcmdns.cpp`).

- `MdnsNames`: name compression (section 4.1.4 of RFC 1035). A name is its sequence of length-prefixed labels.
  `Decodes(b, p, name)` says that the decoder, started at `p`, runs through exactly these labels.
- `MdnsRecords`, `MdnsRoundTrip`: encoding and parsing of records and packets as functions, and the round trip.
  `MdnsCodec.PacketWriter` writes into an array through a moving position; `MdnsParser` holds the parsing loops.
- `MdnsLabels`: `create_nlabel` and `nlabel_to_str` with their buffers.
- `MdnsLists`, `MdnsStore`: record lists linked in memory, compared by reference; the store as a linked list of
  groups that refines one flat list in insertion order.
- `MdnsReply`, `MdnsResponder`: answers, known-answer suppression (section 7.1 of RFC 6762) and additional records
  (section 12 of RFC 6763), the latter found by walking a list that grows meanwhile.

**Hand-off and framing** (`LightningCastClient.cpp`, `SnapcastComm.cpp`).

- `Handoff`: worker and caller as one interleaved state machine with a program counter each, both instances by a
  parameter, with the threads that `SnapcastComm` lets wait on the same condition variable. Safety holds for both;
  so does progress, exactly from the states called clear, which only `SnapcastComm` can leave.
- `Framing`: header and payload over reads and writes that may be cut anywhere, retried or fail, as a plan says.

Results of `FastWriterRoundTrip` and of its companions are stated for arbitrary strings and arrays; `NormIsFaithful`
says exactly which values the normal form leaves as they are.

Where the code does less than its surroundings suggest, the model follows the code, with a condition that decides every
input:

- a pointer reaches exactly the positions below 0x4000 (`PointerReaches`);
- `dup_label` refuses exactly the TXT strings of 63 bytes among those `create_label` makes (`StringsRoundTrip`);
- the parser clears bit 0x80 of the class instead of 0x8000, which shows exactly if bit 7 was set (`ClassSurvives`);
- `nlabel_to_str` drops the last dot exactly at 255 bytes (`DottedRoundTrip`);
- an array's size is its highest index plus one exactly below index 2^32-1 (`HighestIndexWraps`), so a value reads back
  as itself exactly without that index (`NormIsFaithful`);
- messages of 2^32 bytes and more are cut to their length modulo 2^32 (`LongMessageIsCut`), all others arrive (`FrameIsRead`);
- `rr_entry_match` compares data for PTR records only, so a different record of the same name and type suppresses an
  answer exactly for the other types that carry data (`SuppressionIsExact`);
- `mdns_encode_pkt` looks at the buffer's end only after a record; the replies that stay inside are those of `InsideExactly`;
- `SnapcastComm` can lose a notification (`NotificationCanGetLost`), exactly when a thread in `LockWait` may get it
  (`NotificationArrives`), and its Open in a live session does not wake `select` (`ClearUnlessDisturbed`).

## Model

| member | source | states |
|---|---|---|
| `JsonStrings.ToCodepoint` | jsoncpp.cpp:4277-4326 | every step of the transcoder advances by one to four bytes inside the string, on any input |
| `JsonStrings.ValueToQuotedStringN` | jsoncpp.cpp:4364-4439 | the quoted text is the escape of every code point the scanner finds, whether or not the shortcut for plain text is taken; no read past the end |
| `JsonStrings.UnescapedIsItself` | jsoncpp.cpp:4269-4275 | text that needs no escaping is exactly its own escaped form, so the shortcut changes nothing |
| `JsonStrings.AnyRequiresEscaping` | jsoncpp.cpp:4269-4275 | true exactly when some byte is a quote, a backslash, a control character or not ASCII |
| `JsonStrings.DecodeString` | jsoncpp.cpp:853-904 | the decoding loop accepts and returns exactly what the recursive specification does, escapes and surrogate pairs included |
| `JsonStrings.DecodeUnicodeCodePoint` | jsoncpp.cpp:906-929 | a high surrogate takes a second escape with it or fails; otherwise one escape is one code point |
| `JsonStrings.DecodeUnicodeEscapeSequence` | jsoncpp.cpp:931-955 | four hexadecimal digits of either case, or failure |
| `JsonStrings.EscapeRoundTrip` | jsoncpp.cpp:4364-4439 | decoding one escaped code point, whatever follows, gives its UTF-8 bytes and goes on behind it |
| `JsonStrings.PairRoundTrip` | jsoncpp.cpp:906-929 | the surrogate pair written for a code point above U+FFFF is read back as that code point, with only 20 bits kept |
| `JsonStrings.StringRoundTrip` | jsoncpp.cpp:4364-4439 | any byte string, valid UTF-8 or not, is read back without error, as its canonical form |
| `JsonStrings.QuoteIsAscii` | jsoncpp.cpp:4364-4439 | only ASCII is emitted, for any bytes |
| `JsonStrings.Utf8IsWellFormed` | jsoncpp.cpp:125-151 | what codePointToUTF8 emits for a Unicode scalar value is one well-formed character (table of section 4 of RFC 3629) that scans back to it |
| `JsonStrings.WellFormedChar` | jsoncpp.cpp:4277-4326 | on a well-formed character the transcoder reads exactly its bytes and re-encodes them unchanged |
| `JsonStrings.CanonIdentity` | jsoncpp.cpp:4277-4326 | writing and reading is the identity exactly on well-formed UTF-8, embedded NUL and supplementary planes included |
| `JsonStrings.CanonIsProjection` | jsoncpp.cpp:4277-4439 | the result is always well-formed UTF-8, and writing and reading it again changes nothing |
| `JsonStrings.BeyondUnicodeIsLost` | jsoncpp.cpp:4277-4326 | a witness: a four-byte sequence beyond U+10FFFF comes back as a different character |
| `JsonNumbers.UintToString` | jsoncpp.cpp:167-173 | the digits end in front of a zero byte at the end of the buffer, start inside it, and nothing else is written |
| `JsonNumbers.TwentyDigits` | jsoncpp.cpp:170-173 | no 64-bit number has more than 20 digits, so 25 bytes are enough |
| `JsonNumbers.SignedToString` | jsoncpp.cpp:4182-4196 | the decimal text of every int64, the least one included |
| `JsonNumbers.UnsignedToString` | jsoncpp.cpp:4198-4204 | the decimal text of every uint64 |
| `JsonNumbers.Accumulate` | jsoncpp.cpp:788-804 | the accumulator never overflows 64 bits, and takes the integer path exactly when the token is all digits and its value is within the limit |
| `JsonNumbers.DecodeNumber` | jsoncpp.cpp:773-814 | a token is an integer exactly when its magnitude fits (2^64-1, or 2^63 if negative), signed up to 2^31-1 and unsigned above; otherwise it is a double |
| `JsonNumbers.OurDecodeNumber` | jsoncpp.cpp:1770-1848 | OurReader takes the integer path on the same tokens and gets the same number |
| `JsonNumbers.IntegerRoundTrip` | jsoncpp.cpp:773-814 | every int64 and uint64 survives printing and decoding, up to the tag |
| `JsonNumbers.LoneMinus` | jsoncpp.cpp:776-808 | a lone minus sign decodes to zero |
| `JsonValue.Trichotomy` | jsoncpp.cpp:2928-2976 | exactly one of a < b, b < a, a == b, through nested containers |
| `JsonValue.LessTransitive` | jsoncpp.cpp:2928-2976 | operator< is transitive through size-first, then lexicographic, comparison of containers |
| `JsonValue.EqualIsIdentity` | jsoncpp.cpp:2984-3024 | operator== holds exactly between identical real-free trees |
| `JsonValue.StrictTotalOrder` | jsoncpp.cpp:2928-3024 | operator< is a strict total order on real-free trees and agrees with operator== |
| `JsonValue.KeyTotal` | jsoncpp.cpp:2733-2762 | keys, by index or by bytes, are totally ordered |
| `JsonValue.TagsDiffer` | jsoncpp.cpp:2928-2931 | a witness: the same number with another tag is another value, ordered by its tag |
| `JsonTokens.ReadToken` | jsoncpp.cpp:476-545 | a token starts and ends inside the document; only the end of the stream consumes nothing |
| `JsonTokens.Recover` | jsoncpp.cpp:966-977 | recovery stops inside the document on every input |
| `JsonReader.ReadValue` | jsoncpp.cpp:389-464 | the specification of the recursive descent: positions only move forward, so every recursion consumes input |
| `JsonParser.Reader.SkipSpaces` | jsoncpp.cpp:547-555 | stops at the first byte that is not white space |
| `JsonParser.Reader.Match` | jsoncpp.cpp:557-566 | consumes the pattern only when all of it is there |
| `JsonParser.Reader.ReadComment` | jsoncpp.cpp:568-589 | succeeds and stops exactly where the comment ends, in both styles |
| `JsonParser.Reader.ReadNumber` | jsoncpp.cpp:647-667 | current_ ends up behind the longest run the one-character look-ahead accepts |
| `JsonParser.Reader.ReadString` | jsoncpp.cpp:669-679 | succeeds exactly when an unescaped quote follows, and stops behind it |
| `JsonParser.Reader.ReadToken` | jsoncpp.cpp:476-545 | the token machine agrees with its specification; false exactly for an error token |
| `JsonParser.Reader.ReadTokenSkippingComments` | jsoncpp.cpp:466-474 | the first token that is not a comment |
| `JsonParser.Reader.RecoverFromError` | jsoncpp.cpp:966-977 | consumes tokens up to the wanted one and leaves the error list as long as before |
| `JsonParser.Reader.TokenNumber` | jsoncpp.cpp:763-840 | the decoded number of the token, or one error more |
| `JsonParser.Reader.TokenString` | jsoncpp.cpp:842-904 | the decoded string of the token, or one error more |
| `JsonParser.Reader.ReadValue` | jsoncpp.cpp:389-464 | on every document: ends, reports success exactly when no error was added, changes only the top of nodes_ and leaves its size unchanged on every normal return |
| `JsonParser.Reader.ReadObject` | jsoncpp.cpp:681-726 | members in order, the last of equal names wins, recovery to the closing brace; the member name left over from the round before decides whether a brace is accepted |
| `JsonParser.Reader.ReadName` | jsoncpp.cpp:687-702 | a member name, or the end of the object with its brace or an error |
| `JsonParser.Reader.ReadMember` | jsoncpp.cpp:704-723 | colon, value and separator of one member; says whether another member follows |
| `JsonParser.Reader.ReadArray` | jsoncpp.cpp:728-761 | elements at their indices, recovery to the closing bracket |
| `JsonParser.Reader.Parse` | jsoncpp.cpp:350-387 | any byte string is parsed to the specified value with errors_ empty exactly on success, or the stack limit is hit |
| `JsonText.Fill` | jsoncpp.cpp:3297-3312 | an array reads as as many elements as its highest index plus one, holes as null, and is no deeper for it |
| `JsonRoundTrip.ReadsToken` | jsoncpp.cpp:476-545 | a document that goes on with white space and a token yields exactly that token and stops where the rest begins |
| `JsonRoundTrip.QuoteIsString` | jsoncpp.cpp:669-679 | the closing quote that readString finds is the one the writer put there |
| `JsonRoundTrip.ReadsValue` | jsoncpp.cpp:389-464 | the continuation property: a value's tokens with anything behind them are read as the value, stopping exactly at the rest, or the nesting is too deep |
| `JsonRoundTrip.ReadsArray` | jsoncpp.cpp:728-761 | the same for arrays, element by element |
| `JsonRoundTrip.ReadsMembers` | jsoncpp.cpp:681-726 | the same for the members of an object |
| `JsonRoundTrip.ParseSpelled` | jsoncpp.cpp:350-387 | any text with the tokens of a real-free value, in any layout, parses to the normalised value, and throws exactly when the nesting exceeds 1000 |
| `JsonWriters.FastWriter.Write` | jsoncpp.cpp:4466-4472 | the text is the value's tokens without white space, with or without the final line feed and the space after colons |
| `JsonWriters.FastWriter.WriteElements` | jsoncpp.cpp:4501-4510 | size() elements with commas between them, holes included |
| `JsonWriters.FastWriter.WriteMembers` | jsoncpp.cpp:4511-4524 | all members in key order with quoted names |
| `JsonWriters.FastTextSpelled` | jsoncpp.cpp:4466-4525 | what FastWriter writes lexes as exactly the tokens of the value |
| `JsonWriters.FastWriterRoundTrip` | jsoncpp.cpp:4466-4525 | parse(write(v)) is v up to integer tags, canonical strings and filled holes, for every real-free tree; it throws exactly beyond the depth limit |
| `JsonWriters.LexSpelled` | jsoncpp.cpp:476-545 | a text that spells a token sequence lexes to that sequence, whatever its white space |
| `JsonWriters.SameTokensSameValue` | jsoncpp.cpp:4532-4541 | two texts with the tokens of one value lex alike and parse to the same value |
| `JsonNorm.NormIsTidy` | jsoncpp.cpp:805-812 | for well-formed UTF-8 the normal form is the value with integers retagged and every array cut or filled with null to its size |
| `JsonNorm.TidyKeepsTokens` | jsoncpp.cpp:4474-4528 | normalising changes no token: the parsed value prints the same text |
| `JsonFaithful.NormIsFaithful` | jsoncpp.cpp:3297-3312 | a real-free tree reads back as itself, up to integer tags and holes filled with null, exactly when its strings and names are well-formed UTF-8 and no array holds an element at index 2^32-1 |
| `JsonFaithful.RoundTripIsFaithful` | jsoncpp.cpp:4466-4525 | parse(write(v)) succeeds within the depth limit, and is v itself up to tags and holes exactly under those two conditions |
| `JsonFaithful.TopIndexEmpties` | jsoncpp.cpp:3306-3312 | with an element at index 2^32-1 an array reads back empty, whatever else it holds |
| `JsonFaithful.ArrayAligned` | jsoncpp.cpp:3297-3312 | slot by slot: every element of an array comes back at its index and every hole as null, exactly when no element is at index 2^32-1 |
| `JsonFaithful.PrintParsePrint` | jsoncpp.cpp:4466-4525 | for a tree of well-formed strings within the depth limit, parse(write(v)) is its tidy form, which is v itself exactly when no array holds an element at index 2^32-1, and prints the same text again |
| `JsonValid.ParsedIsValid` | jsoncpp.cpp:350-464 | of every document below 2^32 bytes, with or without an error, the reader leaves a value the library can hold, whose array indices fit in the int that counts them and which is not too deep to be read again |
| `JsonValid.ParsedTexts` | jsoncpp.cpp:350-464 | no string or name of a parsed value is as long as the document; up to 2^30 bytes, therefore, no name is cut to 30 bits of length and no string is refused as too long |
| `JsonValid.ParsedRoundTrip` | jsoncpp.cpp:350-464 | a parsed real-free value survives printing and parsing: the normal form of it comes back, and the value itself exactly when its strings are well-formed UTF-8 |
| `JsonNorm.DepthSuffices` | jsoncpp.cpp:394-395 | a tree no deeper than 1000 levels never hits the stack limit |
| `JsonStyledWriter.StyledWriter.Write` | jsoncpp.cpp:4532-4541 | whatever the layout, the text spells exactly the tokens of the value, as FastWriter's does |
| `JsonStyledWriter.StyledWriter.IsMultilineArray` | jsoncpp.cpp:4646-4671 | whenever the single line is chosen, and whenever childValues_ is not empty, it holds exactly one entry per element, each spelling its element |
| `JsonStyledWriter.StyledWriter.WriteLines` | jsoncpp.cpp:4607-4632 | the multi-line branch appends the array's tokens, from prepared entries or element by element |
| `JsonStyledWriter.StyledWriter.WriteOneLine` | jsoncpp.cpp:4633-4643 | the single-line branch appends the same tokens |
| `JsonStyledWriter.StyledWriter.WriteMembers` | jsoncpp.cpp:4574-4599 | the object branch appends the object's tokens |
| `JsonStyledWriter.StyledWriter.WriteIndent` | jsoncpp.cpp:4680-4689 | appends white space only |
| `JsonArrays.PutEntries` | jsoncpp.cpp:3363-3377 | writing through operator[] at an index up to the size keeps the keys dense and stores or appends the element |
| `JsonArrays.ArrayValue.Append` | jsoncpp.cpp:3569-3576 | appends to the list |
| `JsonArrays.ArrayValue.Insert` | jsoncpp.cpp:3582-3594 | inserts into the list when the index is at most the size, else refuses |
| `JsonArrays.ArrayValue.RemoveIndex` | jsoncpp.cpp:3639-3661 | takes the element out of the list and returns it, or refuses |
| `JsonArrays.ArrayValue.Resize` | jsoncpp.cpp:3344-3361 | truncates the list or pads it with null |
| `JsonArrays.ArrayValue.TruncateFrom` | jsoncpp.cpp:3355-3359 | erasing keys from the lowest up leaves exactly the first newSize elements |
| `JsonText.HighestIndexWraps` | jsoncpp.cpp:3306-3312 | the size is the highest index plus one exactly when that index is below 2^32-1; at 2^32-1 it wraps to zero |
| `MdnsNames.EncodeName` | tinysvcmdns.cpp:901-942 | at most one byte more than the uncompressed name, and the cache only grows |
| `MdnsNames.Find` | tinysvcmdns.cpp:910-917 | a match exists exactly when some cached name is equal |
| `MdnsNames.PointerReaches` | tinysvcmdns.cpp:912-912 | a pointer leads back to a position exactly when that is below 0x4000 |
| `MdnsNames.DecodesToOne` | tinysvcmdns.cpp:256-300 | the decoder reads at most one name at a position |
| `MdnsNames.DecodesPrefix` | tinysvcmdns.cpp:256-300 | writing further does not change what a position decodes to |
| `MdnsNames.EncodedNameDecodes` | tinysvcmdns.cpp:901-942 | while a name is being written, unfinished entries cannot be matched, and all entries are good once it is complete |
| `MdnsNames.EncodeNameKeepsTable` | tinysvcmdns.cpp:901-942 | after each complete mdns_encode_name every cached name still stands at its position and decodes to itself, and so does the name just written, given 14-bit positions |
| `MdnsNames.PointerLimitIsReal` | tinysvcmdns.cpp:912-912 | a witness: a name cached at position 0x4000 is not reached by the pointer written for it |
| `MdnsNames.LabelLenOfEncoded` | tinysvcmdns.cpp:159-176 | label_len of an encoded name is the length the encoder returned |
| `MdnsNames.LabelLength` | tinysvcmdns.cpp:159-176 | the loop computes the specified length |
| `MdnsNames.UncompressNlabel` | tinysvcmdns.cpp:256-300 | wherever a name decodes, both passes end and the copy is that name |
| `MdnsLabels.CreateNlabel` | tinysvcmdns.cpp:204-235 | the buffer holds the labels of the name and a final zero; for the empty name its first byte is never written |
| `MdnsLabels.LabelsOfJoin` | tinysvcmdns.cpp:204-235 | a name joined with dots becomes its components behind their lengths (section 3.1 of RFC 1035) |
| `MdnsLabels.LabelsWellFormed` | tinysvcmdns.cpp:204-235 | as long as every length fits in its byte, the result is one well-formed label sequence exactly when every component has 1 to 63 bytes |
| `MdnsLabels.LongComponentPasses` | tinysvcmdns.cpp:204-235 | a witness: a component of 257 bytes gives the length byte 1, and its own bytes then pass for labels |
| `MdnsLabels.NlabelToText` | tinysvcmdns.cpp:118-154 | never writes past the 256-byte buffer, and ends the text with a zero inside it |
| `MdnsLabels.TextOfName` | tinysvcmdns.cpp:118-154 | the text is the dotted name exactly up to 255 bytes; at 256 only the last dot is lost, beyond that the text is a proper prefix |
| `MdnsLabels.DottedRoundTrip` | tinysvcmdns.cpp:118-235 | a dotted name with good components comes back with a final dot exactly up to 254 bytes, and without it at 255 |
| `Bytes.Read16Back` | tinysvcmdns.cpp:607-623 | a 16-bit field is read back modulo its width |
| `Bytes.Read32Back` | tinysvcmdns.cpp:613-630 | a 32-bit field is read back modulo its width |
| `MdnsRoundTrip.StringsRoundTrip` | tinysvcmdns.cpp:790-817 | TXT strings are read back in order and used up exactly, or the record is refused exactly when one has 63 bytes (dup_label against create_label) |
| `MdnsRoundTrip.DataRoundTrip` | tinysvcmdns.cpp:975-1024 | the data of every record type is skipped or recovered, used up exactly, and the name cache stays good |
| `MdnsRoundTrip.RecordRoundTrip` | tinysvcmdns.cpp:705-836 | parsing an encoded record consumes exactly the bytes that were written, SRV and NSEC included, and recovers name, type, TTL, flush bit and data |
| `MdnsRoundTrip.RecordsRoundTrip` | tinysvcmdns.cpp:881-892 | the first n of the encoded records are parsed back in order |
| `MdnsRoundTrip.PacketRoundTrip` | tinysvcmdns.cpp:1038-1099 | parsing an encoded reply recovers id, flags and the answers in order, or refuses the packet exactly when an answer has a 63-byte TXT string |
| `MdnsRoundTrip.SmallPacketRoundTrip` | tinysvcmdns.cpp:1038-1099 | packets up to 16384 bytes always meet the pointer limit |
| `MdnsRoundTrip.ClassSurvives` | tinysvcmdns.cpp:736-737 | the parsed class keeps the flush bit (bit 0x80 is cleared, not 0x8000), and gives the same class field exactly when bit 7 was clear |
| `MdnsRoundTrip.ReencodedRecord` | tinysvcmdns.cpp:946-1036 | a parsed record encodes to the bytes it came from, exactly when bit 7 of the class was clear |
| `MdnsCodec.PacketWriter.EncodeName` | tinysvcmdns.cpp:901-942 | the buffer is changed in exactly the bytes of the encoding, and the compression list grows as specified |
| `MdnsCodec.PacketWriter.EncodeData` | tinysvcmdns.cpp:973-1028 | exactly the data of the record is written |
| `MdnsCodec.PacketWriter.EncodeStrings` | tinysvcmdns.cpp:992-999 | the loop over the TXT list writes every string behind its length |
| `MdnsCodec.PacketWriter.EncodeRR` | tinysvcmdns.cpp:946-1036 | with the data length patched in last, exactly the specified record is in the buffer |
| `MdnsCodec.PacketWriter.EncodePacket` | tinysvcmdns.cpp:1038-1099 | for every reply that stays inside the buffer: the buffer starts with the specified packet, or as much of it as fits; -1 exactly when there are records and the packet is not shorter than the buffer |
| `MdnsCodec.PacketWriter.EncodeAll` | tinysvcmdns.cpp:1077-1089 | the loop over the records with its test after each of them, for the same replies |
| `MdnsCodec.InsideExactly` | tinysvcmdns.cpp:1077-1089 | a reply stays inside the buffer exactly when it fits as a whole, or when one of its records ends with the buffer's last byte |
| `MdnsCodec.SpliceBefore` | tinysvcmdns.cpp:1030-1033 | bytes patched in front of data already written give the same buffer as writing in order |
| `MdnsParser.ParsedPacketReadable` | tinysvcmdns.cpp:840-897 | on every packet that parses, the parser stays inside the packet |
| `MdnsParser.EncodedReplyReadable` | tinysvcmdns.cpp:840-897 | on every encoded reply with 14-bit positions the parser stays inside the packet too, also where it refuses it for a 63-byte TXT string |
| `MdnsParser.EncodedRRsReadable` | tinysvcmdns.cpp:881-892 | the same for any number of encoded records, by induction over them |
| `MdnsParser.ReadStrings` | tinysvcmdns.cpp:800-817 | the TXT loop agrees with its specification, bounds and length limits included |
| `MdnsParser.ReadRR` | tinysvcmdns.cpp:705-836 | the record parser agrees with its specification |
| `MdnsParser.ReadQuestion` | tinysvcmdns.cpp:667-701 | the question parser agrees with its specification |
| `MdnsParser.ReadPacket` | tinysvcmdns.cpp:840-897 | header, questions and answers as specified, or nothing |
| `MdnsLists.RRList.Append` | tinysvcmdns.cpp:407-435 | adds the record at the end unless the same record is there already, and says which |
| `MdnsLists.RRList.Remove` | tinysvcmdns.cpp:384-401 | takes out the record, wherever it is, and keeps the order of the others |
| `MdnsLists.AppendThenRemove` | tinysvcmdns.cpp:384-435 | removing what was just appended gives the list back |
| `MdnsLists.AppendNewElements` | tinysvcmdns.cpp:407-435 | appending one by one adds exactly the given records to the set |
| `MdnsLists.AppendNewNoDuplicates` | tinysvcmdns.cpp:407-435 | and never creates a duplicate |
| `MdnsStore.NamedAppend` | tinysvcmdns.cpp:534-559 | adding a record to the flat list adds it to the records of its name and of no other |
| `MdnsStore.SelectNamed` | tinysvcmdns.cpp:1242-1251 | filtering one group by type is filtering the flat list by name and type |
| `MdnsStore.InMatches` | tinysvcmdns.cpp:1242-1251 | a record answers a query exactly when it is stored, has the name, and has the type, or the type is ANY and it is not NSEC |
| `MdnsStore.Store.Find` | tinysvcmdns.cpp:561-567 | the group of the name, or none exactly when no group has it |
| `MdnsStore.Store.Add` | tinysvcmdns.cpp:534-559 | the grouped store refines the flat list: names stay distinct, each group holds exactly the records of its name, every record has its group |
| `MdnsStore.Store.PopulateAnswers` | tinysvcmdns.cpp:1229-1256 | appends precisely the flat filter by name and type, less what is there already, and returns the growth; the store is unchanged |
| `MdnsReply.InRelated` | tinysvcmdns.cpp:1263-1283 | what add_related_rr looks up for a record is exactly the stored records related to it |
| `MdnsReply.Walk` | tinysvcmdns.cpp:1259-1288 | the walk ends although the walked list may be the one that grows; its result has no duplicates, comes from the store and extends the list |
| `MdnsReply.AdditionalIsClosed` | tinysvcmdns.cpp:1372-1376 | the additional records cover everything related to the answers, are closed under the relation and have no duplicates |
| `MdnsReply.AdditionalIsLeast` | tinysvcmdns.cpp:1372-1376 | they are the least such set |
| `MdnsReply.InAnswers` | tinysvcmdns.cpp:1320-1343 | the collected answers are exactly the stored records that a multicast question asks for |
| `MdnsReply.Match` | tinysvcmdns.cpp:580-593 | the first known answer of the same type and name and, for a PTR, the same target; none exactly when there is none |
| `MdnsReply.MatchesData` | tinysvcmdns.cpp:580-593 | that is the first known answer with the same data exactly when its data is the same, or when there is none |
| `MdnsReply.SuppressionIsExact` | tinysvcmdns.cpp:580-593 | whatever the querier lists: a stored record is suppressed exactly when the querier knows that record with half its TTL (section 7.1 of RFC 6762), if and only if it is a PTR or its type carries no data; for A, AAAA, TXT, SRV and NSEC any record of the same name and type suppresses it |
| `MdnsReply.AnswersAre` | tinysvcmdns.cpp:1320-1370 | the answers are exactly the stored records asked for without a match in the known answers with half their TTL, each once |
| `MdnsReply.UnknownNoDuplicates` | tinysvcmdns.cpp:1345-1370 | suppression keeps the answers free of duplicates |
| `MdnsResponder.FindMatch` | tinysvcmdns.cpp:580-593 | the loop finds the first match |
| `MdnsResponder.Reply.Init` | tinysvcmdns.cpp:632-654 | an empty reply with the id and the response flags |
| `MdnsResponder.Reply.AddRelated` | tinysvcmdns.cpp:1259-1288 | one method for both passes: over the answers, and over the additional records while they grow; num_add_rr stays the length of the list |
| `MdnsResponder.Reply.SuppressKnown` | tinysvcmdns.cpp:1345-1370 | leaves exactly the order-preserving filter, with num_ans_rr equal to the length after every removal |
| `MdnsResponder.Reply.AnswerQuestions` | tinysvcmdns.cpp:1320-1343 | the answers to all multicast questions in order, num_ans_rr equal to their number |
| `MdnsResponder.Reply.Process` | tinysvcmdns.cpp:1308-1384 | a standard query gets the answers and the least closed set of additional records with right counters; anything else leaves the reply alone and returns 0 |
| `MdnsResponder.Reply.Announce` | tinysvcmdns.cpp:1291-1305 | an announcement carries the service's PTR records, those of the service directory, and the least closed set related to them |
| `MdnsResponder.ReplyArrives` | tinysvcmdns.cpp:1308-1384 | the answers put together for a query, encoded in at most 16384 bytes and parsed by the querier, are those answers, or nothing exactly when one has a 63-byte TXT string; either way the parser stays inside the packet |
| `MdnsResponder.AskingAgain` | tinysvcmdns.cpp:1308-1384 | a querier that asks again with the answers it parsed as known answers gets none, exactly when of answers that cannot be told apart the first lives at least half as long as the others; equal TTLs are enough |
| `Handoff.StepKeepsInv` | LightningCastClient.cpp:25-121 | every step of either thread, of either instance, keeps the invariant |
| `Handoff.SwitchKeeps` | LightningCastClient.cpp:30-46 | each branch of handle's switch keeps it, finishCmd included |
| `Handoff.FinishLockedKeeps` | LightningCastClient.cpp:101-106 | LockfinishCmd inside do_open only ever finishes the OPEN it belongs to |
| `Handoff.SetFieldsKeeps` | LightningCastClient.cpp:52-89 | setting a command keeps it, whatever the worker is doing |
| `Handoff.NotifyOneKeeps` | LightningCastClient.cpp:67-67 | notify_one keeps it, whoever is woken |
| `Handoff.ReturnKeeps` | LightningCastClient.cpp:67-89 | Close returns only when no session is live |
| `Handoff.ReplyNotifiesKeeps` | SnapcastComm.h:51-64 | notifications of LockSignal on the shared condition variable do not break safety |
| `Handoff.ReachableIsSafe` | SnapcastComm.cpp:26-97 | in every reachable state of both instances: a blocked worker with a pending command has ready set; a waiting caller sees its command pending with ready_sync false or NONE with ready_sync true; no connection is open outside do_open; Close returns only when no session is live; a finished command has notified its caller |
| `Handoff.ReachableLightning` | LightningCastClient.cpp:25-121 | a worker asleep with ready set has been notified or is about to be; a command that meets a live session is a Close, and wake_fd is readable for it |
| `Handoff.SessionEndsBecause` | LightningCastClient.cpp:190-239 | the session loop is left only for a command or an event of the server's side |
| `Handoff.StaleTokenIsHarmless` | LightningCastClient.cpp:215-222 | a wake token left by an idle Close never ends the next session: under every interleaving without a new command and without an event of the server's side the session goes on |
| `Handoff.WorkerCanMove` | SnapcastComm.cpp:26-97 | in either instance, while an Open or Close waits or an Exit is pending, the worker's next step is possible without timeouts or spurious wake-ups exactly in the clear states: not asleep without a notification, and not in select without a readable wake_fd |
| `Handoff.NotificationArrives` | SnapcastComm.cpp:53-106 | a sleeping worker is sure to get the caller's notification exactly when no thread blocked in LockWait could get it instead |
| `Handoff.ClearUnlessDisturbed` | SnapcastComm.cpp:53-106 | in either instance exactly two steps lead out of the clear states: a notification that goes to a thread in LockWait past the sleeping worker, and an Open or Exit that finds the worker in select without a wake token |
| `Handoff.LightningUndisturbed` | LightningCastClient.cpp:52-121 | LightningCastClient is always clear: neither step is possible there |
| `Handoff.SnapcastUndisturbed` | SnapcastComm.cpp:53-106 | SnapcastComm is undisturbed while no thread is left in LockWait, as long as Open is called without a live session and Exit not at all |
| `Handoff.UndisturbedIsClear` | SnapcastComm.cpp:26-193 | every run of either instance without those two steps stays clear, so that the worker can go on whenever a caller waits |
| `Handoff.WorkerGetsNearer` | LightningCastClient.cpp:25-254 | in either instance every step of the worker brings it nearer to finishing a waiting Open or Close, or finishes it and notifies the caller |
| `Handoff.ExitGetsNearer` | LightningCastClient.cpp:25-131 | after Exit every step of the worker brings it nearer to leaving handle, until the caller sets another command |
| `Handoff.ServedInTime` | LightningCastClient.cpp:25-254 | in either instance a waiting Open or Close is served, and after Exit the worker leaves handle, within 13 steps of the worker, under every interleaving |
| `Handoff.ServedOnceClear` | SnapcastComm.cpp:26-193 | a command that was set and notified in a clear state is served: the worker can always take the next of its at most 13 steps |
| `Handoff.NotificationCanGetLost` | SnapcastComm.cpp:53-64 | a witness run: a session ends before the reply, the thread that sent its command waits in LockWait, and the only notification of SnapcastComm's next Open goes to it; the worker sleeps and the caller waits |
| `Handoff.OversleptStays` | SnapcastComm.h:51-64 | from there only a spurious wake-up of the worker helps: every other step leaves it asleep and the caller waiting |
| `Framing.HeaderFields` | LightningCastClient.cpp:530-533 | the header holds the key and the length modulo 2^32 in network order |
| `Framing.TakeIsFront` | LightningCastClient.cpp:268-285 | whatever the reads do, what they collect is the front of the stream and the rest stays |
| `Framing.CleanTake` | LightningCastClient.cpp:268-285 | without hard errors the bytes always arrive, however they are cut |
| `Framing.FrameIsRead` | LightningCastClient.cpp:257-308 | a frame is read as exactly its payload, stopping at the frame boundary, or not at all; without hard errors it is read |
| `Framing.CutFrameIsBroken` | LightningCastClient.cpp:257-308 | a truncated frame is never taken for a message |
| `Framing.LongMessageIsCut` | LightningCastClient.cpp:533-533 | a message of 2^32 bytes or more arrives cut to its length modulo 2^32: the size limit is exact |
| `Framing.MessagesArrive` | LightningCastClient.cpp:257-308 | however the reads are cut and wherever either end breaks off, any number of doRead calls on any prefix of the stream hands on a prefix of the messages sent; without hard errors of its own exactly those whose frames are complete |
| `Framing.AllMessagesArrive` | LightningCastClient.cpp:257-308 | a stream that was written completely arrives completely |
| `Framing.OneMoreFrame` | LightningCastClient.cpp:523-568 | sending one more message puts one more frame behind the others |
| `Framing.Input.Read` | LightningCastClient.cpp:270-285 | one read moves the front of the stream into the buffer, or nothing |
| `Framing.Input.ReadFully` | LightningCastClient.cpp:268-285 | the read loop with EAGAIN and short reads delivers exactly the bytes asked for, or fails |
| `Framing.Client.DoRead` | LightningCastClient.cpp:257-308 | hands on a payload exactly when a whole frame with the right key arrives, and then exactly that payload |
| `Framing.Client.ReadSession` | LightningCastClient.cpp:225-233 | the session's reads hand on the messages in order up to the first that doParse refuses, always stopping at a frame boundary |
| `Framing.Client.ProcessSend` | LightningCastClient.cpp:523-568 | writes the whole frame without hard errors, a prefix of it otherwise, nothing when not connected |

## Left out

- Floating-point numbers: `decodeDouble` and `valueToString(double)` rest on iostream and snprintf. A token that is no
  64-bit integer is handed to a parameter that says whether it is accepted; real values keep their text, and the writers
  and the order are stated for real-free trees.
- JSON comments beyond skipping them, error texts, line and column numbers, offsets, the builder settings, `Path`, and
  everything of `OurReader` except its number decoder.
- `FastWriter::dropNullPlaceholders` and `emitUTF8`, which no caller in the repository uses.
- JsonValid.ParsedIsValid: the library cuts member names to 30 bits of length and throws for strings of 2^31-5 bytes and more; neither is modelled, and `ParsedTexts` says that documents of up to 2^30 bytes meet neither.
- Value references: the parser writes through pointers into the tree; the model keeps the value on top of `nodes_` and
  puts it back into its parent. Ownership, copying and prefixed strings are not modelled.
- JsonParser.Reader.ReadArray: the index is unbounded; by `ParsedIsValid` it stays below 2^31 in documents below 2^32 bytes, and the overflow of the source's `int` in longer ones is not modelled.
- JsonStyledWriter.StyledWriter.Write: fixes the tokens of the text, not its exact white space and indentation.
- MdnsNames.UncompressNlabel: called where a name decodes; nothing is claimed on bytes where the decoder would run in circles or past the packet.
- MdnsParser.ReadPacket: requires that the fields it reads lie inside the packet and its names decode, which holds for every packet the specification parses; reads behind the received length are not modelled.
- MdnsCodec.PacketWriter.EncodePacket: called for replies that stay inside the buffer, as `InsideExactly` decides; what a longer reply overwrites behind it is not modelled.
- Byte order inside a stored IPv4 address: addresses are their four bytes in network order.
- PTR records that point to another record: the model keeps the resolved target name, as `MDNS_RR_GET_PTR_NAME` computes it.
- `malloc` failures, `free`, and reading a record's type-specific union under another type.
- MdnsStore.Store.Add: a group's records are a sequence field; the linked form of record lists is modelled in `MdnsLists`, where it is walked while it grows.
- MdnsResponder.Reply.Process: the store is fixed during one reply and holds fewer than 65536 records, so the 16-bit counters do not wrap; the incoming packet is a value.
- Sockets, `select`, multicast setup, interfaces, pipes, signals, the service registration functions and the main loop.
- Handoff: one caller at a time; after Exit has ended the worker, a later Open or Close waits for nobody, which the progress results exclude. `select` readiness, connecting and the server's behaviour are free choices; `SnapcastComm`'s process exit when no socket can be had is not modelled.
- Handoff.ServedInTime: counts worker steps and assumes that each of them ends. A reply's LockSignal is an event of its own that is possible while the worker reads it; processSend's lock on the socket is not modelled.
- Heartbeat timing, the remote commands sent at the start of a session, and what `doParse` does with a message.
- `LightningCastServer.cpp`, whose framing copies the client's, and `SnapcastComm::doParse` with its nested header.
