# Verified models of the ioscpp protocol stack

ioscpp talks to a device over a hand-written stack of codecs and protocols. This project
models the parts of that stack whose correctness is not visible in any one function, and
proves what each part is for.

**Object graphs.** A property list is written as a binary plist by flattening the tree into a
table of objects that share interned keys, and is read back through offsets with a memo table
and a cycle guard (`Plists`, `BinaryFormat`, `BinaryTable`, `BinaryWriter`, `BinaryReader`,
`BinaryDecoder`, `BinaryRoundTrip`, `BinaryWire`). A keyed archive compiles the same tree into a
second table of references and resolves it under a depth limit (`KeyedArchive`, `ArchiveTables`,
`ArchiveUids`, `ArchiveFile`).

**Length-prefixed and text codecs.** RemoteXPC objects with their alignment (`XpcFormat`,
`XpcCodec`, `XpcRoundTrip`, `XpcNormal`, `XpcMessage`, `XpcWire`), DTX frames (`DtxFormat`, `DtxCodec`,
`DtxRoundTrip`, `DtxWire`), calendar dates (`CivilDate`, `PlistDate`, `DateExactly`), base64 (`Base64`,
`Base64Exactly`), XML plists (`XmlText`, `XmlFormat`, `XmlPlist`, `XmlRoundTrip`, `XmlDocument`,
`XmlGrammar`, `XmlExactly`, `XmlFiles`) and JSON (`JsonFormat`, `JsonCodec`, `JsonRoundTrip`,
`JsonGrammar`, `JsonExactly`, `JsonWire`).

**Stateful protocols.** HTTP/2 with its flow-control windows (`Http2Frames`, `Http2History`,
`Http2Windows`, `Http2Connection`, `Http2Wire`), the IPv6 framer (`Ipv6`), the userspace TCP link and
its checksum (`Checksum`, `TcpSegments`, `TcpLinks`, `TcpWire`) and the DTX request and reply connection
(`DtxHistory`, `DtxConnections`).

## How it is built

Each codec has pure functions that say what its bytes mean, methods with the loops, cursors and
buffers of the source that are proved equal to them, and lemmas that prove what the codec is for
about the functions: round trips with their exact conditions, self-delimiting frames,
normalisation of foreign input.

A round trip alone would hold of a writer and a reader that err alike. So each format is also
stated once more, in a module that names none of the codec's constants and writes every byte out:
what is written for every value, and which bytes are read as which value, if and only if. These
are the modules whose names end in `Wire` or `Exactly`, with `JsonGrammar`, `XmlGrammar`, `XmlFiles` and
`ArchiveTables`.

Each protocol is a class with the source's fields and ghost histories of what was sent, read and
delivered. `Valid` ties the fields to the histories; every method keeps it, so what it says holds
in every reachable state. `Transports` is the network: an arbitrary source of bytes that answers
each read with any non-empty prefix that fits, or with an error, at any time. It counts the calls
that failed, so that a method can say that it fails for no other reason than those it names.

Bytes are integers 0..255 and machine words are reduced explicitly where the code wraps (`Words`,
`Fields`, `NetworkOrder`, `Decimal`, `Dictionaries`). A
dictionary is a sequence of entries with strictly increasing keys. A double is its 64-bit
pattern; conversions between doubles and other values are parameters, and what is proved holds
whatever they are.

## What the code does that its users might not expect

- An integer in 128..255, 32768..65535 or 2^31..2^32-1 does not come back from a binary plist:
  it is written unsigned and read signed (`BinaryRoundTrip.TwoHundredDoesNotSurvive`). The exact
  domain is `BinaryRoundTrip.Survives`.
- A tree nested in more than 31 containers can be archived but not unarchived
  (`ArchiveFile.ThirtyTwoArraysDoNotSurvive`), and a uid that is archived comes back as whatever
  slot of the archive it names (`ArchiveFile.UidZeroComesBackAsNull`). The exact domain is
  `ArchiveFile.ArchiveRoundTripExactly`.
- A uid comes back from XML as an integer and a date whose year is not 0..9999 does not come
  back (`XmlDocument.UidComesBackAsInteger`, `XmlDocument.YearTenThousandFails`). The exact domain
  is `XmlDocument.XmlRoundTripExactly`.
- The one HTTP/2 counter for all streams lets a DATA frame overrun the window of its stream after
  a credit on another stream that sent nothing, or after an initial window size that arrives late
  (`Http2Windows.CreditElsewhereOverruns`, `Http2Windows.LateSettingOverruns`). When it does not is
  `Http2Windows.SafeExactly` for the counter and `Http2Windows.FramesFitExactly` for the frames.
- A conforming peer that credits two streams can overflow that counter, which then turns negative
  and stalls every write (`Http2Windows.TwoCreditsOverflow`, `Http2Connection.OverflowStalls`). When
  it does is `Http2Windows.OverflowsExactly`.
- A TCP payload whose acknowledgement cannot be written is lost although it counts as received:
  a later read goes on after the hole (`TcpSegments.LostPayloadLeavesAHole`). Nothing else is lost:
  `TcpLinks.TcpLink.DeliversTheStream`.
- A TCP header with options has them delivered as payload (`TcpSegments.PayloadExactly`).
- An HTTP/2 frame whose acknowledgement cannot be written has taken effect and is handled again
  by the next call; a DTX message whose acknowledgement cannot be written is dropped. The histories
  record both.

## Model

| member | source | states |
|---|---|---|
| Words.ByteVector.PutBigEndian | src/protocol/plist.cpp:645-651 | appends the low bytes of a value most significant first |
| Words.ByteVector.PutLittleEndian | src/protocol/remotexpc.cpp:24-39 | appends the low bytes of a value least significant first |
| Words.BigEndianRoundTrip | src/protocol/plist.cpp:645-651 | a value that fits its width is what its big-endian bytes stand for |
| Dictionaries.EmplaceKeepsOrder | src/protocol/plist.cpp:1466-1494 | emplacing keeps the keys strictly increasing, keeps every present entry with its value and adds at most the new one |
| Dictionaries.LessIs | src/protocol/plist.cpp:1476-1494 | the order of keys: the first that ends or has the smaller byte where two part |
| BinaryTable.FlattenPlaces | src/protocol/plist.cpp:726-761 | flattening any tree gives every node a slot of its own, keeps the slots dense and in table order, and links every object to its elements and interned keys |
| BinaryTable.TableOf | src/protocol/plist.cpp:726-761 | the table of a whole tree is dense, holds the tree at its root and links every object |
| BinaryTable.Flattener.Visit | src/protocol/plist.cpp:726-761 | the mutating traversal leaves exactly the table of the specification |
| BinaryWriter.AppendInt | src/protocol/plist.cpp:658-705 | writes an integer in the width the code picks, two's complement when negative |
| BinaryWriter.AppendCount | src/protocol/plist.cpp:708-719 | writes a marker with its count, or with a count object when it does not fit the nibble |
| BinaryWriter.AppendObject | src/protocol/plist.cpp:763-867 | appends the encoding of an object's shape: its leaf, or the slots of its keys and elements |
| BinaryWriter.AppendObjects | src/protocol/plist.cpp:1116-1121 | writes every object and notes exactly where each one starts |
| BinaryWriter.PickSize | src/protocol/plist.cpp:1100-1130 | the width loop finds the least byte count that holds a number |
| BinaryWriter.ToBinary | src/protocol/plist.cpp:1092-1140 | the whole writer produces the file image of the specification |
| BinaryFormat.CountBack | src/protocol/plist.cpp:1279-1293 | every count a container can have is read back, because counts are read unsigned |
| BinaryFormat.ArrayBack | src/protocol/plist.cpp:1420-1449 | no guard rejects a written array and its references come back |
| BinaryFormat.DictionaryBack | src/protocol/plist.cpp:1451-1475 | no guard rejects a written dictionary and both reference lists come back |
| BinaryFormat.IntFieldFits | src/protocol/plist.cpp:1300-1319 | a written integer fits its field and sign extension gives its narrowed value |
| BinaryFormat.ShapeBack | src/protocol/plist.cpp:1234-1499 | a written object reads back as its shape, whatever follows it in the file |
| BinaryReader.UnfoldMonotone | src/protocol/plist.cpp:1196-1232 | an object that unfolds within a depth unfolds to the same value at every greater depth |
| BinaryReader.UnfoldsUnique | src/protocol/plist.cpp:1196-1232 | plain unfolding gives at most one value |
| BinaryReader.UnfoldsWithinTable | src/protocol/plist.cpp:1196-1232 | an object unfolds at all if and only if it unfolds within as many levels as the table has objects |
| BinaryDecoder.ReadBigEndian | src/protocol/plist.cpp:1165-1174 | reads a big-endian field of any size with 64-bit wrap-around |
| BinaryDecoder.ReadCount | src/protocol/plist.cpp:1279-1293 | reads a count and moves past it, failing exactly when it is truncated |
| BinaryDecoder.ActivatingKeepsUnblocked | src/protocol/plist.cpp:1216-1226 | marking an object active never blocks its own decoding |
| BinaryDecoder.Decoder.Decode | src/protocol/plist.cpp:1209-1232 | the memoised decoder keeps every filled cache slot equal to plain unfolding, returns only what unfolding gives, and succeeds whenever the object unfolds without meeting an active one |
| BinaryDecoder.Decoder.DecodeUncached | src/protocol/plist.cpp:1234-1499 | the same for one object read from its bytes |
| BinaryDecoder.Decoder.DecodeArray | src/protocol/plist.cpp:1420-1449 | decoding elements in order, each through the cache, is unfolding the array |
| BinaryDecoder.Decoder.DecodeDictionary | src/protocol/plist.cpp:1451-1495 | reading the keys first and then the values in turn is unfolding the dictionary |
| BinaryDecoder.ReadOffsets | src/protocol/plist.cpp:1190-1194 | reads the offset table entry by entry |
| BinaryDecoder.DecodeMeansUnfold | src/protocol/plist.cpp:1503-1504 | a decoder with nothing active decodes an object if and only if it unfolds |
| BinaryDecoder.ParseBinary | src/protocol/plist.cpp:1157-1505 | for every input the parser returns exactly what trailer location and plain unfolding give |
| BinaryRoundTrip.ImageLayout | src/protocol/plist.cpp:1092-1140 | in a written file the trailer locates the offset table and every offset points at its object |
| BinaryRoundTrip.PlacedUnfolds | src/protocol/plist.cpp:1196-1232 | a placed node unfolds to its normal form, whatever shares the table with it |
| BinaryRoundTrip.ParsedImageIsNormal | src/protocol/plist.cpp:1092-1505 | reading any written tree gives its normal form: the tree with unsigned-width integers read back signed and dates through the double conversion |
| BinaryRoundTrip.NormalIsIdentity | src/protocol/plist.cpp:658-705 | a tree equals its normal form if and only if it survives: its integers are outside 128..255, 32768..65535 and 2^31..2^32-1 and its dates survive the double conversion |
| BinaryRoundTrip.RoundTripExactly | src/protocol/plist.cpp:1092-1505 | the binary round trip holds if and only if the tree survives |
| BinaryRoundTrip.TwoHundredDoesNotSurvive | src/protocol/plist.cpp:658-676 | 200 is read back as -56 |
| BinaryWire.ShapeExactly | src/protocol/plist.cpp:1234-1499 | bytes are read as an object if and only if they show it, with the first byte of every kind of object, its count and its fields written out |
| BinaryWire.ShapeWritten | src/protocol/plist.cpp:763-867 | the bytes of every object that is written, from its first byte on: 00, 08, 09, 10+e, 23, 33, 40+n, 50+n, 80+e, a0+n or d0+n |
| BinaryWire.LocateExactly | src/protocol/plist.cpp:1157-1194 | a file is taken apart if and only if its last 32 bytes, by position, give the sizes, the count, the top object and an offset table that fits |
| BinaryWire.ParsesExactly | src/protocol/plist.cpp:1157-1505 | any file is read as a value if and only if it is framed so and its top object unfolds to the value |
| BinaryWire.ImageIsWritten | src/protocol/plist.cpp:1092-1140 | the file of every tree: the eight bytes of its head, every node written as its own bytes where the offset table says, and the trailer by position |
| BinaryWire.PictureIsRead | src/protocol/plist.cpp:1196-1505 | any framed file whose objects show the nodes of a tree is read as the tree, whoever wrote it |
| BinaryWire.TrueIsRead | src/protocol/plist.cpp:1244-1248 | a literal file whose object is the byte 09 is read as true |
| BinaryWire.DictionaryIsRead | src/protocol/plist.cpp:1451-1495 | a literal file of one entry is read as its dictionary |
| KeyedArchive.StoredKeeps | src/protocol/keyed_archive.cpp:35-84 | storing a value changes no slot that existed before |
| ArchiveTables.StoredResolves | src/protocol/keyed_archive.cpp:35-187 | a stored value resolves to itself in every later extension of the table exactly when it fits the depth that is left, and to an error otherwise |
| KeyedArchive.FitsIsNesting | src/protocol/keyed_archive.cpp:25-25 | fitting at depth zero means that no node lies inside more than 31 containers |
| KeyedArchive.ObjectTable.AppendObject | src/protocol/keyed_archive.cpp:35-84 | the mutating compiler leaves exactly the specified table and returns the value's slot |
| KeyedArchive.ObjectTable.AppendElements | src/protocol/keyed_archive.cpp:43-48 | the element loop appends each element and collects the references |
| KeyedArchive.Resolve | src/protocol/keyed_archive.cpp:180-187 | resolution with its depth limit |
| KeyedArchive.ResolveObject | src/protocol/keyed_archive.cpp:89-179 | resolution of a Uid, an array, a class dictionary or anything else, with each error case |
| KeyedArchive.ResolveInstance | src/protocol/keyed_archive.cpp:124-178 | resolution of an array or dictionary instance by its class name |
| KeyedArchive.ResolveEntries | src/protocol/keyed_archive.cpp:160-173 | keys and values are resolved in turn, the first error winning |
| ArchiveFile.Archive | src/protocol/keyed_archive.cpp:189-203 | the archive writer produces the specified skeleton as a binary plist |
| ArchiveFile.Unarchive | src/protocol/keyed_archive.cpp:204-233 | the archive reader checks the archiver, the version, the objects and the root and resolves it |
| ArchiveFile.StoredNormal | src/protocol/keyed_archive.cpp:35-84 | normalising the stored table is storing the normal form |
| ArchiveFile.ArchiveRoundTrip | src/protocol/keyed_archive.cpp:189-233 | for every Uid-free value unarchiving gives the normal form exactly up to 31 levels of nesting and an error beyond |
| ArchiveFile.ArchiveRoundTripExactly | src/protocol/keyed_archive.cpp:189-233 | the archive round trip holds if and only if the value holds no uid, its nesting is at most 31 and it survives the binary plist |
| ArchiveFile.UidsNeverComeBack | src/protocol/keyed_archive.cpp:89-187 | no archive gives back a value that holds a uid, even where the value archived held one |
| ArchiveFile.UidZeroComesBackAsNull | src/protocol/keyed_archive.cpp:91-99 | an archived uid comes back as the slot it names: uid 0 as the text $null |
| ArchiveFile.ThirtyTwoArraysDoNotSurvive | src/protocol/keyed_archive.cpp:180-187 | null inside 32 arrays is archived and not unarchived |
| ArchiveUids.ResolvesUidFree | src/protocol/keyed_archive.cpp:89-187 | over a table that the archiver wrote, whatever a reference leads to holds no uid |
| ArchiveUids.StoredIsWritten | src/protocol/keyed_archive.cpp:35-84 | every slot the archiver adds is a leaf, a class definition or an instance of an array or dictionary class |
| ArchiveTables.HeldResolves | src/protocol/keyed_archive.cpp:89-187 | whatever a table holds resolves to itself up to the nesting limit and to an error beyond, whether its classes are named NSArray or NSMutableArray, NSDictionary or NSMutableDictionary |
| ArchiveTables.ArrayObject | src/protocol/keyed_archive.cpp:124-147 | an object of either array class resolves to its elements, and is malformed without them |
| ArchiveTables.DictionaryObject | src/protocol/keyed_archive.cpp:148-175 | an object of either dictionary class resolves to its entries, and is malformed without keys and values of one length |
| ArchiveTables.OtherClassesStay | src/protocol/keyed_archive.cpp:124-178 | an object of any class with another name is left as it is |
| ArchiveTables.UnclassedObject | src/protocol/keyed_archive.cpp:114-123 | a dictionary without a class is left as it is |
| ArchiveTables.StoredIsHeld | src/protocol/keyed_archive.cpp:35-84 | what the archiver stores is held by its table and by every later one |
| ArchiveTables.ClassObject | src/protocol/keyed_archive.cpp:27-33 | the class definition that is stored, by its keys and names |
| ArchiveFile.RootedExactly | src/protocol/keyed_archive.cpp:204-233 | a plist is taken for an archive if and only if it has the four entries, by name, with a table and a root uid |
| ArchiveFile.ForeignArchive | src/protocol/keyed_archive.cpp:204-233 | an archive that any program wrote is read as the value its table holds at the root |
| ArchiveFile.SkeletonIsArchive | src/protocol/keyed_archive.cpp:189-203 | what the archiver writes is such an archive |
| CivilDate.DateRoundTrip | src/protocol/plist.cpp:187-210 | civil_from_days undoes days_from_civil on every Gregorian date, negative eras included |
| CivilDate.DaysRoundTrip | src/protocol/plist.cpp:187-210 | days_from_civil undoes civil_from_days on every day number, and its dates are real dates |
| CivilDate.DaysFollowTheCalendar | src/protocol/plist.cpp:198-210 | successive day numbers are successive calendar dates |
| CivilDate.DayZero | src/protocol/plist.cpp:198-210 | day 0 is 1 January 1970 |
| CivilDate.FloorByTruncation | src/protocol/plist.cpp:219-224 | the shift before a truncating division makes it a floor division |
| PlistDate.ReadNumber | src/protocol/plist.cpp:250-264 | reads a fixed field of digits, or fails on a non-digit |
| PlistDate.ParseDate | src/protocol/plist.cpp:244-278 | parses the six fields into seconds |
| PlistDate.DateTextRoundTrip | src/protocol/plist.cpp:216-278 | parsing a formatted date gives the same second for every year 0..9999, negative times included |
| PlistDate.DateTextExactly | src/protocol/plist.cpp:216-278 | and for no other year |
| PlistDate.ParsedDateFits | src/protocol/plist.cpp:276-277 | whatever the text, the seconds fit 64 bits |
| DateExactly.FormatIs | src/protocol/plist.cpp:216-242 | the text of every second of the years 0..9999, character by character |
| DateExactly.EpochText | src/protocol/plist.cpp:216-242 | second 0 is printed as 2001-01-01T00:00:00Z |
| DateExactly.ParsesExactly | src/protocol/plist.cpp:244-278 | any text is read by the digits at the fourteen places of its fields, and refused if one is no digit; what stands between and after them does not matter |
| Base64.ToBase64 | src/protocol/plist.cpp:38-73 | encodes by triples with one or two padding characters |
| Base64.FromBase64 | src/protocol/plist.cpp:75-111 | decodes with the unmasked 32-bit buffer |
| Base64.LowBitsMatter | src/protocol/plist.cpp:87-109 | two buffers that agree on their unused low bits decode every text alike, although the high bits wrap |
| Base64.WhiteSpaceIsIgnored | src/protocol/plist.cpp:94-97 | white space anywhere does not change the decoding |
| Base64.Base64RoundTrip | src/protocol/plist.cpp:38-111 | every byte string comes back from its text with any white space inserted |
| Base64Exactly.LettersAre | src/protocol/plist.cpp:38-111 | each value has its letter of the alphabet, written out, and no other byte has a value |
| Base64Exactly.EncodingIs | src/protocol/plist.cpp:38-73 | the letters of every byte string, by their bits |
| Base64Exactly.DecodesExactly | src/protocol/plist.cpp:75-111 | any text is read by the bits of its letters up to the first padding, whatever their number, and refused if and only if another byte is among them |
| XmlText.XmlEscape | src/protocol/plist.cpp:117-140 | escapes the three markup characters |
| XmlText.XmlUnescape | src/protocol/plist.cpp:142-184 | replaces the five entities and leaves any other ampersand |
| XmlText.EscapeBack | src/protocol/plist.cpp:117-184 | arbitrary bytes come back from their escaped form, which holds no `<` |
| XmlText.IntegerBack | src/protocol/plist.cpp:293-297 | a printed integer reads back, saturated to 64 bits |
| XmlPlist.AppendXml | src/protocol/plist.cpp:284-348 | the printer appends the text of the specification |
| XmlPlist.ToXml | src/protocol/plist.cpp:1080-1090 | prints the whole document |
| XmlPlist.XmlParser.SkipPrologs | src/protocol/plist.cpp:387-410 | skips instructions, comments and declarations |
| XmlPlist.XmlParser.Accept | src/protocol/plist.cpp:419-428 | skips white space and consumes a token if it is next |
| XmlPlist.XmlParser.Body | src/protocol/plist.cpp:431-451 | reads the body of an element up to the first close tag |
| XmlPlist.XmlParser.ParseNext | src/protocol/plist.cpp:453-608 | parses one value, advancing the position |
| XmlPlist.XmlParser.ParseArray | src/protocol/plist.cpp:551-567 | parses items until the close tag |
| XmlPlist.XmlParser.ParseDictionary | src/protocol/plist.cpp:580-604 | parses keys and values until the close tag, keeping the first of equal keys |
| XmlPlist.ParseXml | src/protocol/plist.cpp:1151-1155 | parses a document |
| XmlRoundTrip.BodyBack | src/protocol/plist.cpp:431-451 | a body that holds no `<` is read back whole |
| XmlRoundTrip.TagBack | src/protocol/plist.cpp:453-606 | no element is taken for another that is tried before it |
| XmlRoundTrip.ValueBack | src/protocol/plist.cpp:284-608 | parsing the text of any value gives its normal form, or fails where a date does not parse |
| XmlDocument.DocumentIsNormal | src/protocol/plist.cpp:362-376 | a printed document parses to the normal form of its value, prolog included |
| XmlDocument.NormalExactly | src/protocol/plist.cpp:284-348 | a value equals its normal form if and only if it holds no uid, its dates lie in the years 0..9999 and its reals are carried by their text |
| XmlDocument.XmlRoundTripExactly | src/protocol/plist.cpp:1080-1155 | the XML round trip holds if and only if the value survives |
| XmlDocument.UidComesBackAsInteger | src/protocol/plist.cpp:342-346 | uid 5 comes back from a document as the integer 5 |
| XmlDocument.YearTenThousandFails | src/protocol/plist.cpp:216-278 | the first second of the year 10000 is printed and does not parse |
| XmlGrammar.CharactersAre | src/protocol/plist.cpp:142-184 | which text stands for which character, entity by entity |
| XmlGrammar.QuotedIs | src/protocol/plist.cpp:117-140 | what every character is written as |
| XmlGrammar.IntegerIs | src/protocol/plist.cpp:484-491 | white space, a sign and digits are read as their number, saturated to 64 bits, whatever follows |
| XmlExactly.LaidReads | src/protocol/plist.cpp:453-608 | a value laid out with any white space and with its elements closed in either way is read as what it means, whatever follows |
| XmlFiles.ParsesExactly | src/protocol/plist.cpp:354-608 | a text is read as a value if and only if some layout of it means the value: a prolog of instructions, comments and declarations, a root element and a value, with tags and entities written out |
| XmlFiles.XmlIs | src/protocol/plist.cpp:284-348 | every tree is printed as its plain layout |
| XmlFiles.DocumentIs | src/protocol/plist.cpp:1080-1090 | the three lines before the value and the end tag after it |
| Fields.AppendU32 | src/protocol/remotexpc.cpp:24-30 | appends a 32-bit little-endian word, a size truncated to 32 bits |
| XpcFormat.EncodingIsAligned | src/protocol/remotexpc.cpp:64-140 | every encoded object is a multiple of 4 bytes |
| XpcFormat.GapIsLocal | src/protocol/remotexpc.cpp:43-49 | at an aligned offset the padding to the absolute boundary is the local padding |
| XpcCodec.Pad | src/protocol/remotexpc.cpp:43-49 | pads the buffer itself to a 4-byte boundary |
| XpcCodec.EncodeKeyInto | src/protocol/remotexpc.cpp:54-62 | appends a key, its NUL and the padding |
| XpcCodec.EncodeObject | src/protocol/remotexpc.cpp:64-140 | appends the encoding of an object and keeps the buffer aligned |
| XpcCodec.EncodeDictionary | src/protocol/remotexpc.cpp:125-138 | encodes the entries in a buffer of their own and writes its size before it |
| XpcCodec.Reader.SkipPadding | src/protocol/remotexpc.cpp:196-210 | moves to the next absolute boundary or fails when it is past the end |
| XpcCodec.Reader.ReadKey | src/protocol/remotexpc.cpp:212-233 | reads a NUL-terminated key and its padding |
| XpcCodec.Reader.ReadObject | src/protocol/remotexpc.cpp:235-419 | for every input the reader consumes exactly what decoding consumes and returns its value or fails; it terminates because each call advances by at least 4 |
| XpcCodec.Reader.ReadContainer | src/protocol/remotexpc.cpp:346-416 | reads a container, with the count guard and the length check |
| XpcRoundTrip.DecodeBack | src/protocol/remotexpc.cpp:64-419 | decoding an encoding at any aligned offset consumes exactly the encoding and returns the value, whatever follows |
| XpcRoundTrip.ListBack | src/protocol/remotexpc.cpp:346-416 | the array-count guard never rejects an encoding |
| XpcRoundTrip.ParseBack | src/protocol/remotexpc.cpp:683-703 | the round trip of a whole object |
| XpcNormal.DecodedIsEncodable | src/protocol/remotexpc.cpp:235-419 | whatever an input below 2^31 bytes decodes to can be encoded |
| XpcNormal.ParseNormalises | src/protocol/remotexpc.cpp:683-703 | for every accepted input below 2^31 bytes, encoding the parsed value and parsing again gives the same value, and encoding that gives the same bytes |
| XpcNormal.ParseBackExactly | src/protocol/remotexpc.cpp:683-703 | below 2^31 bytes a value comes back from its encoding if and only if it is encodable |
| XpcMessage.ParsePayload | src/protocol/remotexpc.cpp:715-748 | parses a payload: magic, version and one object to the end |
| XpcMessage.ParseWrapper | src/protocol/remotexpc.cpp:780-836 | parses a wrapper: magic, flags, length, identifier and an optional payload |
| XpcMessage.PayloadBack | src/protocol/remotexpc.cpp:705-748 | the round trip lifts through the payload |
| XpcMessage.WrapperBack | src/protocol/remotexpc.cpp:763-836 | the round trip lifts through the wrapper, with or without a payload |
| XpcMessage.WrapperNormalises | src/protocol/remotexpc.cpp:763-836 | an accepted wrapper below 2^31 bytes is encoded and parsed to the same wrapper |
| XpcWire.ParsesExactly | src/protocol/remotexpc.cpp:235-419 | bytes are read as an object if and only if some layout of them means it: type words, lengths, padding, trailing NULs and repeated keys, byte by byte |
| XpcWire.EncodingIs | src/protocol/remotexpc.cpp:64-140 | the bytes of every object, whether or not it can be read back |
| XpcWire.PayloadIs | src/protocol/remotexpc.cpp:705-713 | the eight bytes before the object of a payload |
| XpcWire.PayloadExactly | src/protocol/remotexpc.cpp:715-748 | bytes are read as a payload if and only if those eight bytes and the layout of an object are all of them |
| XpcWire.WrapperIs | src/protocol/remotexpc.cpp:763-778 | the fields of a wrapper in order |
| XpcWire.WrapperExactly | src/protocol/remotexpc.cpp:780-836 | bytes are read as a wrapper if and only if they are its magic, its fields and a body of the stated length that is empty or a payload |
| Transports.Transport.Read | include/ioscpp/transport.hpp:33-39 | a read returns some non-empty prefix of the bytes still to come, at most the buffer's size, the empty chunk at the end, or an error |
| Transports.ByteStream.ReadExact | include/ioscpp/byte_stream.hpp:33-34 | a read of an exact count returns the next bytes, or fails with any error and may have lost some |
| Transports.ByteStream.Write | include/ioscpp/byte_stream.hpp:36-37 | a write sends the whole of its data, or fails with any error having sent a part of it |
| Http2Frames.FrameBack | src/protocol/http2.cpp:70-83 | frames are self-delimiting: what follows one does not change how it is read |
| Http2Frames.FrameForth | src/protocol/http2.cpp:199-223 | reading a frame loses nothing of its bytes |
| Http2Windows.ConnectionWindowIsConserved | src/protocol/http2.cpp:165-166 | the connection window is 65535 plus all increments on stream 0 minus all DATA bytes sent |
| Http2Windows.NeverOverspends | src/protocol/http2.cpp:373-400 | as long as the increments on stream 0 are well-formed and the connection window stays below 2^31, the DATA sent never exceeds what the connection was granted |
| Http2Windows.OwnWindowIsInitialLessDebt | src/protocol/http2.cpp:166-168 | the window section 6.9.2 of RFC 7540 gives a stream is the initial size in force less what the stream has sent beyond its credit |
| Http2Windows.CounterIsInitialLessDebt | src/protocol/http2.cpp:166-168 | the shared counter is the initial size in force less what all streams have sent beyond their credit since it arrived |
| Http2Windows.GapExactly | src/protocol/http2.cpp:166-168 | on any history the window of a stream is the counter plus what the other streams owe since the last initial size, less what the stream itself owed then |
| Http2Windows.GapIsOtherDebt | src/protocol/http2.cpp:166-168 | where the initial size is settled first, the gap is what the other streams have sent beyond their credit |
| Http2Windows.SharedWindowIsConservative | src/protocol/http2.cpp:373-400 | with a peer that keeps section 6.9.1 of RFC 7540, where the initial size is settled first and no stream had been credited beyond what it had sent, every DATA frame fits its own stream's window and the connection's |
| Http2Windows.ConformingStaysBounded | src/protocol/http2.cpp:260-272 | on those runs a conforming peer cannot overflow the shared counter |
| Http2Windows.SafeExactly | src/protocol/http2.cpp:166-168 | on any history the shared counter stays within a stream's own window if and only if the other streams owe, since the last initial size, at least what the stream owed when it arrived |
| Http2Windows.FramesFitExactly | src/protocol/http2.cpp:378-400 | every DATA frame that the counters allow fits the window of its stream if and only if the write's budget is not positive or is within that window |
| Http2Windows.CreditElsewhereOverruns | src/protocol/http2.cpp:260-272 | with a conforming peer, an initial size of 0 and one byte of credit on stream 3 let one byte be sent on stream 1, whose window is 0 |
| Http2Windows.LateSettingOverruns | src/protocol/http2.cpp:247-250 | with a conforming peer, one byte sent and then an initial size of 1 let another byte be sent although the stream's window is 0 |
| Http2Windows.OverflowsExactly | src/protocol/http2.cpp:260-272 | with a conforming peer the shared counter leaves its 32 bits if and only if at some time the credit of all streams since the last initial size exceeds what they sent by the rest of the 31 bits |
| Http2Windows.TwoCreditsOverflow | src/protocol/http2.cpp:260-272 | a conforming peer overflows the shared counter by crediting two streams |
| Http2History.ChunkingDoesNotMatter | src/protocol/http2.cpp:180-306 | two connections that read the same bytes, however chunked, deliver the same messages, one list a prefix of the other |
| Http2Windows.AfterData | src/protocol/http2.cpp:392-398 | a DATA frame spends both windows by its length and extends its stream's data |
| Http2Connection.Http2.Fill | src/protocol/http2.cpp:180-197 | reads until the buffer holds a count, losing and reordering nothing; it fails only if a read failed or the input ended before the count |
| Http2Connection.Http2.ApplySettings | src/protocol/http2.cpp:239-251 | the last INITIAL_WINDOW_SIZE entry sets the counter; a partial entry is ignored |
| Http2Connection.Http2.Handle | src/protocol/http2.cpp:222-302 | acts on one frame: queue, windows, flags and acknowledgement agree with the history, also when the acknowledgement cannot be written |
| Http2Connection.Http2.ReadFrame | src/protocol/http2.cpp:199-306 | handles exactly the first frame of the bytes ahead and removes it, or leaves it to be handled again; it fails only if a call of the transport failed or no whole frame is left to be read |
| Http2Connection.Http2.TakeFrame | src/protocol/http2.cpp:222-302 | handles a whole frame and fails only if its acknowledgement cannot be written |
| Http2Connection.Http2.Connect | src/protocol/http2.cpp:323-365 | sends the preface, SETTINGS and WINDOW_UPDATE and succeeds with the frame that is the peer's SETTINGS, with no DATA sent; it fails only if a call of the transport failed, no whole frame is left or the peer ended the connection before |
| Http2Connection.Http2.Open | src/protocol/http2.cpp:367-371 | writes one empty HEADERS frame |
| Http2Connection.Http2.SendData | src/protocol/http2.cpp:392-398 | sends a DATA frame that both windows allow and spends it |
| Http2Connection.Http2.Write | src/protocol/http2.cpp:373-400 | the DATA frames of one write concatenate to its payload (a prefix of it on failure), each is within both windows and as large as the windows, the frame limit of 16384 bytes and the payload allow, and nothing is sent on another stream; it fails only if a call of the transport failed or, with a window used up, no whole frame is left to be read |
| Http2Connection.Http2.Read | src/protocol/http2.cpp:402-418 | returns the next message in arrival order, including those that arrived while a write waited; it fails only with an empty queue, and then only if a call of the transport failed, no whole frame is left or the peer has ended the connection |
| Http2Connection.Http2.Close | src/protocol/http2.cpp:420-428 | sends GOAWAY at most once |
| Http2Wire.FrameLayout | src/protocol/http2.cpp:70-83 | the fields of every frame by position |
| Http2Wire.FrameExactly | src/protocol/http2.cpp:199-223 | bytes start with a frame if and only if its nine bytes and its payload are there, field by field |
| Http2Wire.GreetingBytes | src/protocol/http2.cpp:323-348 | the 24 bytes of the preface and the 21 and 13 bytes of the two frames after it |
| Http2Wire.AnswerBytes | src/protocol/http2.cpp:247-292 | SETTINGS and PING frames whose lowest flag is clear are acknowledged with these bytes, and no other frame is |
| Http2Wire.ControlBytes | src/protocol/http2.cpp:367-428 | the bytes of the HEADERS, DATA and GOAWAY frames that are sent |
| Http2Wire.Effects | src/protocol/http2.cpp:222-302 | what a frame of each type does to the messages, the windows and the end of the connection, by its number |
| Http2Wire.InitialWindowIs | src/protocol/http2.cpp:239-251 | the initial window is the last entry numbered 4, if there is one |
| Http2Wire.LargestFrame | src/protocol/http2.cpp:373-400 | no DATA frame is larger than 16384 bytes, and both windows start at 65535 |
| Http2Connection.ArrivalTracks | src/protocol/http2.cpp:239-272 | each 32-bit counter stays exact as long as the window it holds stays below 2^31 and the increments for it are well-formed; the connection counter needs nothing of the streams |
| Http2Connection.OverflowStalls | src/protocol/http2.cpp:269-269 | where two conforming increments overflow the shared counter it turns negative, so a write waits although both streams have credit |
| Ipv6.HeaderBack | src/protocol/ipv6.cpp:27-68 | a header comes back from its bytes if and only if its version and flow label fit |
| Ipv6.HeaderForth | src/protocol/ipv6.cpp:27-68 | every 40 bytes are the encoding of the header they decode to |
| Ipv6.TakenInOrder | src/protocol/ipv6.cpp:102-129 | what is taken from a stream of packets is its beginning and what remains is the rest |
| Ipv6.Ipv6Framer.Fill | src/protocol/ipv6.cpp:76-100 | drops the consumed prefix and reads more, keeping the remaining stream and the buffer bound of max(40, max packet size) + 16383 bytes |
| Ipv6.Ipv6Framer.ReadPacket | src/protocol/ipv6.cpp:102-129 | returns exactly the first packet of the remaining stream; it fails only if a read failed or the rest of the input starts with no packet |
| Ipv6.Ipv6Framer.FollowsStream | src/protocol/ipv6.cpp:102-129 | whatever the chunking, on a stream of well-formed packets the next packet returned is the next of the stream |
| Checksum.AddWords | src/tcp_link.cpp:130-141 | adds the 16-bit words of a byte string, an odd last byte as a high half, without loss while the sum fits 32 bits |
| Checksum.FinishChecksum | src/tcp_link.cpp:143-150 | the fold loop terminates, keeps the sum modulo 65535 and complements it |
| Checksum.WordSumBound | src/tcp_link.cpp:130-141 | the sum of a segment fits the 32-bit accumulator |
| Checksum.FoldOnce | src/tcp_link.cpp:130-150 | folding once at the end is bringing the carry around after every word |
| Checksum.TcpChecksum | src/tcp_link.cpp:153-170 | for every segment up to 65535 bytes the result is the complement of the one's complement sum of pseudo-header and segment |
| Checksum.ChecksumVerifies | src/tcp_link.cpp:234-239 | writing the checksum at bytes 16-17 of a segment whose field was zero makes the whole sum 0xffff |
| TcpSegments.TcpHeaderBack | src/protocol/usbmux.cpp:97-126 | a TCP header comes back from its bytes |
| TcpSegments.PacketArrives | src/tcp_link.cpp:213-296 | a packet the link sends is one whole IPv6 packet, verifies, and is accepted by a peer as the segment that was sent |
| TcpSegments.SequenceIsPosition | src/tcp_link.cpp:256-258 | contiguous sequence numbers are stream positions modulo 2^32, SYN and FIN counting one |
| TcpSegments.AcknowledgesTheStream | src/tcp_link.cpp:348-357 | for an in-order peer the acknowledgement is the first byte plus the bytes received, modulo 2^32 |
| TcpSegments.PayloadExactly | src/tcp_link.cpp:288-294 | the payload the link takes is what follows the header and its options if and only if the data offset is 5 |
| TcpSegments.RetainedExactly | src/tcp_link.cpp:346-357 | the payloads kept are the whole stream if and only if none was lost, and shorter otherwise |
| TcpSegments.LostPayloadLeavesAHole | src/tcp_link.cpp:350-354 | of two payloads the first is lost and the second kept: what is given out is not a prefix of the stream, and the acknowledgement covers the missing byte |
| TcpLinks.TcpLink.constructor | src/tcp_link.cpp:183-196 | a new link is valid for every MTU that leaves room for a segment |
| TcpLinks.TcpLink.SendSegment | src/tcp_link.cpp:213-260 | writes one stamped packet of at most the MTU and advances the sequence number by its length |
| TcpLinks.TcpLink.PacketsFitTheMtu | src/tcp_link.cpp:298-311 | no packet ever sent is larger than the MTU |
| TcpLinks.TcpLink.ReceiveSegment | src/tcp_link.cpp:262-296 | passes over foreign, short and non-TCP packets and returns the next segment for the connection |
| TcpLinks.TcpLink.AwaitAnswer | src/tcp_link.cpp:412-435 | returns the first SYN|ACK of the segments taken, all before it being neither an answer nor a reset; it fails with a device error only on a reset, and otherwise only if a read failed or the input ended |
| TcpLinks.TcpLink.Connect | src/tcp_link.cpp:389-436 | a connection starts with exactly a SYN at 0 and an ACK at 1 that acknowledges one more than the sequence number of the SYN|ACK taken during the call; it fails only if a call of the transport failed, the input ended or a reset came first |
| TcpLinks.TcpLink.Write | src/tcp_link.cpp:298-311 | the payloads sent concatenate to the data, in segments of MSS bytes but for the last; it fails only with the transport |
| TcpLinks.TcpLink.AnswerFin | src/tcp_link.cpp:333-344 | a FIN is answered by the link's only FIN, closes the link and keeps its payload |
| TcpLinks.TcpLink.AnswerData | src/tcp_link.cpp:345-357 | a payload is kept if its acknowledgement was written and lost if it was not, and nothing else is written |
| TcpLinks.TcpLink.PassOver | src/tcp_link.cpp:329-333 | a reset closes the link and an empty segment does nothing |
| TcpLinks.TcpLink.Receive | src/tcp_link.cpp:323-358 | one segment is received and answered as its flags ask; the link closes if and only if it is a reset or a FIN, a device error means a reset, and any other error that no segment came or that the last payload is lost with its acknowledgement |
| TcpLinks.TcpLink.Read | src/tcp_link.cpp:313-363 | bytes returned plus bytes unread are the payloads kept, in order; an empty result means closed and read out; only a transport error loses a payload, the last one received; it fails only on a reset or if the input ended or the transport failed |
| TcpLinks.TcpLink.ReadExact | src/tcp_link.cpp:443-460 | returns exactly the next bytes of the stream or an error, and only a transport error loses a payload, the last one received |
| TcpLinks.TcpLink.Close | src/tcp_link.cpp:467-478 | sends one FIN unless the link had closed or the transport fails, and never a second |
| TcpLinks.TcpLink.DeliversTheStream | src/tcp_link.cpp:313-363 | against a peer of well-formed packets, whatever the chunking and whatever packets lie between, what was delivered and what is unread are the payloads that were kept of the first segments sent; they are the beginning of the peer's stream if and only if no payload was lost |
| TcpWire.PacketBytes | src/tcp_link.cpp:213-260 | every packet that is sent, byte by byte, with its checksum by an independent sum |
| TcpWire.AcceptedExactly | src/tcp_link.cpp:262-296 | a packet is taken as a segment if and only if it has room for both headers, names TCP and has the two ports, by position |
| TcpWire.FlagBits | include/ioscpp/protocol/usbmux.hpp:93-103 | which bit each flag is, whatever the other bits are |
| TcpWire.SegmentMeans | src/tcp_link.cpp:323-435 | which bits make a segment an answer or an end of the stream, and what is acknowledged after it |
| TcpWire.HeaderBytes | src/protocol/ipv6.cpp:27-46 | the forty bytes of an IPv6 header by position |
| TcpWire.PacketExactly | src/protocol/ipv6.cpp:102-129 | bytes start with a packet if and only if their version is 6 and the length at byte 4 is within the limit and is there |
| DtxCodec.EncodeValueInto | src/protocol/dtx.cpp:49-83 | appends one auxiliary value |
| DtxCodec.EncodeMessage | src/protocol/dtx.cpp:440-483 | the whole frame with its derived lengths |
| DtxCodec.Reader.ReadWord | src/protocol/dtx.cpp:96-150 | reads a little-endian word or fails, consuming nothing |
| DtxCodec.Reader.ReadValue | src/protocol/dtx.cpp:164-232 | reads one value by its type |
| DtxCodec.Reader.ReadAuxiliary | src/protocol/dtx.cpp:236-280 | reads the auxiliary dictionary, dropping the keys |
| DtxCodec.ParseMessage | src/protocol/dtx.cpp:485-633 | for every input the parser accepts and returns what the specification says |
| DtxRoundTrip.ValueBack | src/protocol/dtx.cpp:49-232 | every value whose length fits 32 bits comes back, whatever follows |
| DtxRoundTrip.ParseBackExactly | src/protocol/dtx.cpp:440-633 | below 2^32 bytes a message comes back from its frame if and only if it is unfragmented, within the size limit and of a one-byte type |
| DtxRoundTrip.FirstMessageBack | src/dtx_connection.cpp:93-144 | a frame is cut off the stream whole, whatever follows it |
| DtxRoundTrip.AuxiliarySizeIsForced | src/protocol/dtx.cpp:568-627 | every received 32-byte-header frame has auxiliary size zero or 16 plus the inner body length, although no check compares them |
| DtxRoundTrip.ReceivingNormalises | src/protocol/dtx.cpp:440-633 | encoding a received message and receiving it again gives the same message |
| DtxHistory.FatesPartition | src/dtx_connection.cpp:146-176 | the messages read are shared out among replies, direct receives, the queue and those dropped, none lost or doubled |
| DtxHistory.SplitsTheStream | src/dtx_connection.cpp:93-144 | a stream of encodings is split into exactly the encoded messages |
| DtxHistory.DistinctBeforeWrap | src/dtx_connection.cpp:146-151 | numbers handed out are pairwise distinct and never 0 until the counter wraps |
| DtxConnections.DtxConnection.Send | src/dtx_connection.cpp:87-91 | writes one frame, or breaks off within it |
| DtxConnections.DtxConnection.ReadFrame | src/dtx_connection.cpp:93-131 | reads exactly one frame, sized by its header; if the stream does not fail, an error means that the frame does not parse |
| DtxConnections.DtxConnection.Next | src/dtx_connection.cpp:131-143 | a message that expects a reply is acknowledged exactly once, in arrival order, before it is handed on |
| DtxConnections.DtxConnection.Receive | src/dtx_connection.cpp:93-144 | a message received directly bypasses the queue; a failed receive adds at most one message, dropped with its acknowledgement, and leaves the stream in step if and only if it read one |
| DtxConnections.DtxConnection.SendAndAwaitReply | src/dtx_connection.cpp:146-176 | the reply is the first message with the request's identifier and a non-zero index, every message before it is queued in order, and a successful request leaves the stream in step; it fails only if the stream failed or the bytes after the messages read hold no frame that parses |
| DtxConnections.DtxConnection.RequestChannel | src/dtx_connection.cpp:178-192 | each request takes the next channel code, also when it fails; it succeeds only after its call was written and the last message read answers it, and fails for the same causes |
| DtxConnections.DtxConnection.Invoke | src/dtx_connection.cpp:210-219 | an invocation takes the next identifier, writes its call and returns its reply, the last message read, or fails for the same causes |
| DtxConnections.DtxConnection.NextPending | src/dtx_connection.cpp:199-208 | pops the oldest queued message or fails on an empty queue |
| DtxConnections.DtxConnection.ReadsTheStream | src/dtx_connection.cpp:93-144 | on a stream of encoded messages the connection has read exactly the first of them |
| DtxWire.ParsesExactly | src/protocol/dtx.cpp:485-633 | bytes are read as a message if and only if some layout of them means it, with both headers, the auxiliary dictionary and the value types byte by byte |
| DtxWire.ValueExactly | src/protocol/dtx.cpp:164-232 | bytes start with a value if and only if they start with its own bytes |
| DtxWire.EncodingIs | src/protocol/dtx.cpp:440-483 | the bytes of every message, whether or not it can be received |
| DtxWire.CutExactly | src/dtx_connection.cpp:93-131 | a stream is cut by the sum of the words at bytes 4 and 12 |
| DtxWire.AckBytes | src/dtx_connection.cpp:131-143 | the bytes of every acknowledgement |
| DtxWire.CallBytes | src/dtx_connection.cpp:146-219 | the bytes of every call |
| DtxWire.ConversationIs | src/dtx_connection.cpp:146-192 | channels are opened on channel 0, and which replies and which flags the connection goes by |
| JsonCodec.SerializeString | src/protocol/json.cpp:375-419 | writes a string with its escapes |
| JsonCodec.Serialize | src/protocol/json.cpp:441-490 | the serializer appends the text of the specification |
| JsonCodec.Parser.ReadHex4 | src/protocol/json.cpp:51-82 | four hexadecimal digits or a failure |
| JsonCodec.Parser.ReadUnicode | src/protocol/json.cpp:213-241 | one code unit, or a surrogate pair combined |
| JsonCodec.Parser.ReadString | src/protocol/json.cpp:159-247 | reads a string up to its closing quote |
| JsonCodec.Parser.ReadNumber | src/protocol/json.cpp:249-288 | scans the longest number token and converts it |
| JsonCodec.Parser.ReadArray | src/protocol/json.cpp:337-370 | reads the items of an array |
| JsonCodec.Parser.ReadObject | src/protocol/json.cpp:290-335 | reads the members of an object, keeping the first of equal keys |
| JsonCodec.ParseText | src/protocol/json.cpp:644-659 | parses a document without trailing text |
| JsonRoundTrip.StringBack | src/protocol/json.cpp:159-419 | arbitrary byte strings come back, control bytes through escapes and all else raw |
| JsonRoundTrip.SurrogatePair | src/protocol/json.cpp:213-241 | every surrogate pair is combined into a code point in 0x10000..0x10FFFF written as four well-formed UTF-8 bytes, different pairs differently |
| JsonRoundTrip.WholeBack | src/protocol/json.cpp:249-430 | a whole number below 10^15 comes back |
| JsonRoundTrip.ValueBack | src/protocol/json.cpp:116-492 | parsing the text of a value gives the value and stops at what follows it |
| JsonRoundTrip.JsonRoundTrip | src/protocol/json.cpp:637-659 | every value whose numbers are whole and below 10^15 comes back from its text |
| JsonExactly.ParsesExactly | src/protocol/json.cpp:100-370 | a text is read as a value if and only if some layout of it means the value, with any blanks around its tokens and any of its escapes, byte by byte |
| JsonExactly.LayoutIsRead | src/protocol/json.cpp:100-370 | every layout is read as what it means |
| JsonExactly.BlankAfterColon | src/protocol/json.cpp:313-314 | `{"mtu": 1280}` is read |
| JsonExactly.ForeignEscapesAreRead | src/protocol/json.cpp:184-241 | escapes that are never written are read: `\/` as one byte, `\u00e9` as two, `\u20AC` as three |
| JsonExactly.CodePointDecodes | src/protocol/json.cpp:24-48 | the bytes of a code point are its UTF-8: their number, their marks and their bits |
| JsonWire.TextIs | src/protocol/json.cpp:375-492 | the bytes every value is serialized as |
| BinaryTable.Flattener.constructor | src/protocol/plist.cpp:1094-1098 | flattening starts from the empty table |
| BinaryWriter.AppendUid | src/protocol/plist.cpp:840-865 | writes a uid in its least unsigned width |
| BinaryWriter.AppendElementRefs | src/protocol/plist.cpp:813-838 | writes the slot of every element in order |
| BinaryWriter.AppendKeyRefs | src/protocol/plist.cpp:824-834 | writes the slot of every key in order |
| BinaryWriter.AppendOffsets | src/protocol/plist.cpp:1123-1127 | writes the offset of every object in the offset width |
| BinaryWriter.AppendTrailer | src/protocol/plist.cpp:1129-1138 | writes the trailer |
| BinaryDecoder.ReadUint | src/protocol/plist.cpp:1264-1277 | reads a field or fails when it is truncated |
| BinaryDecoder.ReadLowBytes | src/protocol/plist.cpp:1398-1408 | takes the low byte of every UTF-16 unit |
| BinaryDecoder.ReadLeaf | src/protocol/plist.cpp:1296-1418 | decodes every kind of object that holds no reference |
| BinaryDecoder.ReadKeys | src/protocol/plist.cpp:1464-1475 | reads the key references or fails when they are truncated |
| BinaryDecoder.Decoder.constructor | src/protocol/plist.cpp:1196-1197 | decoding starts with an empty cache and nothing active |
| BinaryDecoder.Decoder.DecodeEntries | src/protocol/plist.cpp:1476-1494 | decodes each key and value in turn and keeps the first of equal keys |
| KeyedArchive.ObjectTable.constructor | src/protocol/keyed_archive.cpp:191-193 | the table starts with the null object |
| KeyedArchive.ObjectTable.AppendArray | src/protocol/keyed_archive.cpp:37-55 | reserves the slot and the class slot, appends the elements and fills the reserved slot |
| KeyedArchive.ObjectTable.AppendDictionary | src/protocol/keyed_archive.cpp:56-80 | the same for a dictionary, keys first |
| KeyedArchive.ObjectTable.AppendKeys | src/protocol/keyed_archive.cpp:63-68 | appends every key as a string object |
| KeyedArchive.ResolveAll | src/protocol/keyed_archive.cpp:100-113 | resolves references in order, the first error winning |
| XpcCodec.EncodeRun | src/protocol/remotexpc.cpp:86-93 | appends a length, the bytes and the padding |
| XpcCodec.EncodeText | src/protocol/remotexpc.cpp:94-105 | appends a string whose length counts its NUL |
| XpcCodec.EncodeArray | src/protocol/remotexpc.cpp:112-124 | encodes the items in a buffer of their own and writes its size before it |
| XpcCodec.Reader.ReadU32 | src/protocol/remotexpc.cpp:153-166 | reads a word or fails, consuming nothing |
| XpcCodec.Reader.ReadU64 | src/protocol/remotexpc.cpp:168-181 | reads a long word or fails, consuming nothing |
| XpcCodec.Reader.Take | src/protocol/remotexpc.cpp:183-192 | takes a count of bytes or fails, consuming nothing |
| XpcCodec.Reader.ReadScalar | src/protocol/remotexpc.cpp:244-345 | reads the value of a type that is not a container |
| XpcCodec.Reader.ReadItems | src/protocol/remotexpc.cpp:366-381 | reads a count of items one after the other |
| XpcCodec.Reader.ReadEntries | src/protocol/remotexpc.cpp:395-411 | reads a count of keys and values, keeping the first of equal keys |
| XpcMessage.ToBytes | src/protocol/remotexpc.cpp:683-688 | encodes one object |
| XpcMessage.ParseObject | src/protocol/remotexpc.cpp:690-703 | parses one object that must end the input |
| XpcMessage.PayloadToBytes | src/protocol/remotexpc.cpp:705-713 | encodes a payload |
| XpcMessage.WrapperToBytes | src/protocol/remotexpc.cpp:763-778 | encodes a wrapper, its length derived |
| Http2Connection.Http2.constructor | src/protocol/http2.cpp:160-178 | a new connection is valid, with both windows at 65535 |
| Http2Connection.Http2.Acknowledge | src/protocol/http2.cpp:253-258 | writes the acknowledgement of a frame that has taken effect |
| Http2Connection.Http2.Send | src/protocol/http2.cpp:367-371 | writes a control frame |
| Http2Connection.Http2.Greet | src/protocol/http2.cpp:327-348 | writes the preface, SETTINGS and WINDOW_UPDATE |
| Ipv6.Ipv6Framer.constructor | src/protocol/ipv6.cpp:70-74 | a new framer has taken nothing |
| Ipv6.Ipv6Framer.WritePacket | src/protocol/ipv6.cpp:131-134 | writes a packet as it is |
| DtxCodec.EncodeAuxiliaryBody | src/protocol/dtx.cpp:442-447 | encodes the values, each after a null key |
| DtxCodec.AppendAuxiliary | src/protocol/dtx.cpp:472-480 | writes the auxiliary header and body, or nothing for no values |
| DtxCodec.Reader.ReadEntries | src/protocol/dtx.cpp:262-279 | reads keys and values to the end and drops the keys |
| DtxCodec.Reader.ReadContent | src/protocol/dtx.cpp:609-631 | reads the auxiliary dictionary and the payload, which must end the frame |
| DtxConnections.DtxConnection.constructor | src/dtx_connection.cpp:82-85 | a new connection has read, written and queued nothing |
| XmlPlist.XmlParser.SkipSpaces | src/protocol/plist.cpp:379-385 | skips white space |
| XmlPlist.XmlParser.Advance | src/protocol/plist.cpp:413-417 | moves past the next occurrence of a character or to the end |
| XmlPlist.XmlParser.LeafValue | src/protocol/plist.cpp:484-546 | the value of an element body by its element |
| XmlPlist.XmlParser.Key | src/protocol/plist.cpp:592-596 | reads and unescapes a key element |
| XmlPlist.RemoveSpace | src/protocol/plist.cpp:517-525 | removes the white space of a data body |
| JsonCodec.ToText | src/protocol/json.cpp:637-642 | serializes a value |
| JsonCodec.SerializeItems | src/protocol/json.cpp:456-470 | writes items with commas between them |
| JsonCodec.SerializeMembers | src/protocol/json.cpp:472-488 | writes members with commas between them |
| JsonCodec.Parser.SkipWhitespace | src/protocol/json.cpp:100-114 | skips blanks |
| JsonCodec.Parser.ReadValue | src/protocol/json.cpp:116-157 | parses one value by its first character |
| JsonCodec.Parser.ReadLiteral | src/protocol/json.cpp:129-152 | parses true, false or null |
| JsonCodec.Parser.ReadEscape | src/protocol/json.cpp:184-244 | parses one escape |

## Left out

- Error messages: only the error code is modelled.
- Floating point: `%.17g`, `strtod` and `from_chars` on anything but whole numbers below 10^15, and the conversion of a binary plist date to a double, are the parameters `Reals`, `Floats` and `Doubles`. JSON's -0 is the same number as 0.
- UTF-16 strings of a binary plist are decoded as the code does, one low byte for each unit (`BinaryWire.ShapeExactly`); the code calls that decoding lossy, and nothing more is proved about it.
- Machine size: round trips of binary plists and archives are stated for files shorter than 2^63 bytes, which every byte vector is.
- BinaryTable.Flattener.Visit: a node is identified by its path in the tree instead of by its address in memory, and a key by its text, so two keys are one object exactly when they are equal.
- PlistDate.ParseDate: the sum of days and seconds is unbounded here; the code's 64-bit sum cannot overflow on any text (`PlistDate.ParsedDateFits`).
- PlistDate.DateTextExactly: covers every second count, so the formatting of seconds within 978307200 of the 64-bit limit, where the C++ addition overflows, is the mathematical one.
- Base64.ToBase64: bit operations are written as division and remainder throughout the project.
- XpcNormal.ParseNormalises: inputs of 2^31 bytes and more are outside the statement, because a re-encoded length might then not fit its 32-bit word.
- DtxRoundTrip.ParseBackExactly: frames of 2^32 bytes and more are outside the statement, because their lengths are truncated.
- DtxRoundTrip.AuxiliarySizeIsForced: stated for 32-byte headers; for a longer header `receive` and `parse` read the length field at different offsets.
- Http2Connection.Http2.Handle: a WINDOW_UPDATE payload shorter than 4 bytes, which the code reads past, gives an arbitrary increment, and signed overflow of a window, which C++ leaves undefined, wraps. What is proved about a counter is for the runs on which it does not overflow; `Http2Windows.OverflowsExactly` says which they are.
- Transports.Transport.Write: a write that fails is taken to have sent nothing.
- TcpLinks.TcpLink.constructor: the textual IPv6 addresses and the global counter of source ports are parameters.
- DtxConnections.DtxConnection.RequestChannel: the archived selector and channel name are parameters; `ArchiveFile.Archive` is what produces them.
- JsonRoundTrip.JsonRoundTrip: numbers that are not whole or reach 10^15 are outside the statement, because their text is `%.17g` and their value `from_chars`; they are parsed and printed through the parameters.
- XmlDocument.XmlRoundTripExactly: whether a real comes back is a condition on the parameters, for the same reason.
- The USB and socket transports, pairing, certificates and TLS, the mux layer, AFC and the other services, lockdown, the tunnel handshake, logging and retries.
