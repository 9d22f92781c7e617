# A model of the sproto wire stack, the session and the packet framing

The repository holds a game server in Go and a Unity client in C# that talk to each
other through two independent implementations of one wire stack.  This project models
both implementations and proves that they agree with one format and with each other.

From the bottom up:

- **0-packing.** `Packing` defines the format by splitting a message into blocks.
  `GoPack` and `ClientPack` are the two packers as they are written: one scribbles past
  its write offset in an array, the other seeks in a stream that is reused from call to
  call.  Both are proved against the format.
- **Messages.** `Wire`, `Integers` and `Codec` define the tagged message format, with a
  parameter for the language where the two differ.  `GoEncode` and `GoDecode` are the
  server's codec; `ClientStream`, `ClientSerialize` and `ClientDeserialize` are the
  client's, with its growing buffer, reserved headers, sizes filled in afterwards and
  cursor.  `FieldCount` sizes the client's header.  `RoundTrip` says what arrives, for
  every pair of languages and every pair of compatible schemas, and `Delivery` says it field
  by field; `EndToEnd` composes the methods of both sides.  `Format` spells the format out
  against literal numbers, and `Examples` has the messages and packings of the repository's
  tests.
- **Type descriptions.** `Registry` builds the descriptions that drive the server's codec;
  `Described` ties them to the codec's schemas.
- **Sessions.** `EventList` is the send queue, `Session` the state machine of the two
  threads, the goroutine that waits for them and the application, and `SessionHistory` what
  its states say about the actions that led to them.
- **Framing.** `Framing` is the packet protocol over a byte stream that arrives in pieces.
- **Ids.** `StringHash` is the hash that gives messages their ids, `HashValues` its
  meaning and two known ids, and `ChainManager` the
  registry of receive chains.

Where the obvious claim is false, the code is kept and the exact condition is proved:

- The server zero-extends four-byte integers, so 64-bit values in [-2^31, -1] come back
  changed.  The client also writes unsigned values of at least 2^64 - 2^31 in four bytes,
  and the server misreads those too.  Condition: `Integers.IntSurvives`; inputs:
  `RoundTrip.IntMisread`, `RoundTrip.MinusOneMisread`, `RoundTrip.LargestMisread`.
- A nil element of a list of objects arrives as an empty object.  Condition:
  `RoundTrip.Survives`; input: `RoundTrip.NilFilled`.
- The client's packer reads past its input when a run of 256 segments ends in a partial
  segment.  Condition: `ClientPack.SprotoPack.Pack` and `ClientPack.SpoiledExactly`;
  inputs: `ClientPack.OverrunReal`.
- The server's 16-bit skip arithmetic goes wrong on every span above 32767 tags.
  Condition, for all inputs: `Wire.SkipExact`; schemas here use tags 0 to 32767.
- Serials repeat after 65536 packets.  Condition: `Framing.OnlyAPrefix`; inputs:
  `Framing.ReplayAccepted`.
- A call for a type's description can succeed although a fault is reachable, once an
  earlier call failed.  Condition: `Registry.Registry.GetSprotoType`; inputs:
  `Registry.WithdrawnTarget` and `Registry.RepeatedTag`.

The overhead that `pack.go:45` announces, 2 bytes per 16, is right for the padded length
(`Packing.PackAnnounced`) and wrong for the length itself (`Packing.AnnouncedRaw`).

Strings are byte sequences.  Integers are unbounded in Dafny, so widths, wrap-around and
sign extension are written out.  Exceptions, panics and error returns are `Err` or a
false `ok`.  Check everything with `dafny verify dfyconfig.toml`.

## Model

| member | source | states |
|---|---|---|
| `Packing.UnpackPack` | server/src/github.com/davyxu/gosproto/pack.go:44-125 | for every byte string, unpacking what packing produced gives the string padded with zeros to a multiple of 8 |
| `Packing.PackPadded` | server/src/github.com/davyxu/gosproto/pack.go:44-87 | packing a string and packing its padded form give the same bytes |
| `Packing.PackInjective` | server/src/github.com/davyxu/gosproto/pack.go:44-87 | two strings pack to the same bytes only if their padded forms are equal |
| `Packing.UnpackConcat` | server/src/github.com/davyxu/gosproto/pack.go:89-125 | if a message unpacks, unpacking it with anything appended gives its bytes in front of what the rest unpacks to |
| `Packing.SpreadMask` | server/src/github.com/davyxu/gosproto/pack.go:106-120 | laying the nonzero bytes of a segment out over its mask gives the segment back |
| `Packing.PackSize` | server/src/github.com/davyxu/gosproto/pack.go:14-26 | amortised bound: at most 8·⌈n/8⌉ + 2·⌈n/2048⌉ bytes, because six nonzero bytes or more keep a run open and so repay its two-byte header |
| `Packing.PackSizeTight` | client/Assets/Plugins/Sproto/SprotoPack.cs:128-131 | at most n + 2·⌈n/2048⌉ + 2 bytes, so the client's size check passes for every input length |
| `Packing.PackAnnounced` | server/src/github.com/davyxu/gosproto/pack.go:45-46 | the overhead the code announces, 2 bytes for every 16 of input, holds on the padded length |
| `Packing.AnnouncedRaw` | server/src/github.com/davyxu/gosproto/pack.go:45-46 | on the length itself it does not: 14 bytes without a zero take 18 |
| `Examples.SimplePack` | server/src/github.com/davyxu/gosproto/pack_test.go:17-21 | the repository's example of two masks has the bytes its test expects |
| `Examples.FFPack` | server/src/github.com/davyxu/gosproto/pack_test.go:22-33 | so has the example of a run |
| `GoPack.PackSegment` | server/src/github.com/davyxu/gosproto/pack.go:3-26 | what is written at the offset is the mask block exactly when the segment is neither full nor joins a run; nothing before the offset changes, and only the announced count may be relied on afterwards |
| `GoPack.WriteFF` | server/src/github.com/davyxu/gosproto/pack.go:28-42 | the block of a run, clipped to the source and zero-padded, is all that changes in the buffer |
| `GoPack.Pack` | server/src/github.com/davyxu/gosproto/pack.go:44-87 | the in-place packer, with its scratch writes and run blocks written late, computes the block-splitting specification; every index lies inside the buffer of `maxsz` bytes |
| `GoPack.Room` | server/src/github.com/davyxu/gosproto/pack.go:46-59 | every scratch byte a segment can cause lies inside `maxsz`, in every state of the packer |
| `GoPack.RunRoom` | server/src/github.com/davyxu/gosproto/pack.go:64-74 | the whole block of a pending run lies inside `maxsz` |
| `GoPack.UnpackBlock` | server/src/github.com/davyxu/gosproto/pack.go:106-120 | a mask block is accepted exactly when all the bytes its mask announces are there, and is laid out over them |
| `GoPack.Unpack` | server/src/github.com/davyxu/gosproto/pack.go:89-125 | accepts and computes exactly what the format's inverse does, malformed input included |
| `GoPack.Append` | server/src/github.com/davyxu/gosproto/sproto.go:15-27 | the slice followed by the new bytes, in the same array or a fresh one that is larger |
| `ClientPack.SprotoPack.WriteFF` | client/Assets/Plugins/Sproto/SprotoPack.cs:17-32 | a run's block is written at its place and the position comes back; it fails exactly when the source array is too short |
| `ClientPack.SprotoPack.PackSeg` | client/Assets/Plugins/Sproto/SprotoPack.cs:34-66 | the length announced for a segment, the block left at the header position, and that nothing before it changes |
| `ClientPack.SprotoPack.PadTail` | client/Assets/Plugins/Sproto/SprotoPack.cs:85-96 | the temporary segment holds the rest of the message followed by zeros |
| `ClientPack.SprotoPack.FlushFull` | client/Assets/Plugins/Sproto/SprotoPack.cs:105-110 | the block of 256 segments is right unless its last segment is partial; then bytes behind the message are copied, or the write fails |
| `ClientPack.SprotoPack.UnpackRun` | client/Assets/Plugins/Sproto/SprotoPack.cs:151-163 | a run block is copied, and refused exactly when the array or the message ends too early |
| `ClientPack.SprotoPack.Pack` | client/Assets/Plugins/Sproto/SprotoPack.cs:69-138 | whatever earlier calls left in the stream: the server's bytes for every input that does not end in a run of 256 segments with a partial last one; for those it fails, or takes the bytes that follow in the array, exactly as stated; the size check never fires |
| `ClientPack.LastRunTail` | client/Assets/Plugins/Sproto/SprotoPack.cs:121-126 | the last run of a message is copied literally to the end of its packed form, padding included |
| `ClientPack.SpoiledExactly` | client/Assets/Plugins/Sproto/SprotoPack.cs:105-110 | an overrun goes unnoticed if and only if the bytes after the message happen to be zero |
| `ClientPack.OverrunReal` | client/Assets/Plugins/Sproto/SprotoPack.cs:105-110 | there are such inputs: every 2046 bytes without a zero |
| `ClientPack.SprotoPack.UnpackBlock` | client/Assets/Plugins/Sproto/SprotoPack.cs:164-178 | a mask block is laid out over its bytes, and refused when the array ends first |
| `ClientPack.SprotoPack.Unpack` | client/Assets/Plugins/Sproto/SprotoPack.cs:141-186 | accepts exactly what the server's unpacker accepts, with the same result, when the whole array is the message |
| `Wire.SkipUndone` | server/src/github.com/davyxu/gosproto/encode.go:225-231 | for tags up to 32767 both decoders land on the tag the encoder skipped to |
| `Wire.SkipExact` | server/src/github.com/davyxu/gosproto/encode.go:225-231 | for every span: the server's truncating encoder and wrapping decoder land on the tag if and only if it spans at most 32767 tags and the tag fits 16 bits; the client writes a record if and only if it spans at most 32768, and then its decoder undoes it |
| `Wire.MarksOfRecords` | server/src/github.com/davyxu/gosproto/decode.go:203-234 | reading the header records of any ascending list of items gives back its tags and embedded values |
| `Wire.RecordsFit` | server/src/github.com/davyxu/gosproto/encode.go:225-243 | every record fits 16 bits, and there are no more records than tags |
| `Wire.ItemsRoundTrip` | server/src/github.com/davyxu/gosproto/decode.go:203-270 | both decoders read back the items that were encoded, whatever follows them, and stop at their end |
| `Integers.IntSeen` | server/src/github.com/davyxu/gosproto/decode.go:66-91 | what each decoder makes of each encoder's integer, for every type and value; both widths and the embedded form |
| `Integers.IntSurvives` | server/src/github.com/davyxu/gosproto/decode.go:74-75 | an integer comes back changed if and only if the server reads a 64-bit value in [-2^31, -1], or an unsigned one of at least 2^64 - 2^31, that was written in four bytes |
| `Integers.ListSeen` | server/src/github.com/davyxu/gosproto/decode.go:119-149 | the same for lists, whose elements share one width |
| `Integers.ElemsSurvive` | server/src/github.com/davyxu/gosproto/decode.go:133-134 | a list comes back unchanged if and only if no element is such a value in a four-byte list |
| `Integers.SameListBytes` | client/Assets/Plugins/Sproto/SprotoTypeSerialize.cs:342-393 | both languages write every list of 64-bit integers with the same bytes |
| `RoundTrip.DecodeEncode` | server/src/github.com/davyxu/gosproto/decode.go:236-270 | for every sender and receiver language, schema, message tree, evolved schema and suffix: decoding succeeds, consumes exactly the encoded length, drops fields the receiver does not know, gives it the default for fields the sender does not have or write, and shows the values as `View` describes |
| `RoundTrip.ReadPayload` | server/src/github.com/davyxu/gosproto/decode.go:55-201 | the same for the value of one field of any kind |
| `RoundTrip.ReadObjBytes` | server/src/github.com/davyxu/gosproto/decode.go:179-201 | the same for a list of objects; a nil element arrives as an object without fields |
| `RoundTrip.MergeIsView` | server/src/github.com/davyxu/gosproto/decode.go:248-269 | storing fields in the order they arrive gives, field by field, the projection of the message onto the receiver's schema |
| `RoundTrip.Survives` | server/src/github.com/davyxu/gosproto/decode.go:236-270 | a message survives if and only if it has no misread integer and no nil element at any depth |
| `RoundTrip.ServerRoundTrip` | server/src/github.com/davyxu/gosproto/sproto.go:29-45 | server to server: decoding an encoding followed by anything returns the message itself if and only if it has neither; nil and empty slices stay apart |
| `RoundTrip.ClientReadsServer` | client/Assets/Plugins/Sproto/SprotoTypeDeserialize.cs:87-210 | the client recovers a server's message if and only if it has no nil element; negative 64-bit integers included |
| `RoundTrip.ServerReadsClient` | server/src/github.com/davyxu/gosproto/decode.go:66-91 | the server recovers a client's message, whose lists hold no null, if and only if it has no misread integer |
| `RoundTrip.ShownServer` | server/src/github.com/davyxu/gosproto/encode.go:39-85 | a server object is what its written fields and the defaults describe: zero, false and the empty string are left out without loss |
| `RoundTrip.IntMisread` | server/src/github.com/davyxu/gosproto/decode.go:74-75 | every integer named by the condition, from either sender, in a message of its own: it comes back as its low 32 bits |
| `RoundTrip.MinusOneMisread` | server/src/github.com/davyxu/gosproto/decode.go:74-75 | from server to server, an int64 field holding -1 comes back as 2^32 - 1 |
| `RoundTrip.LargestMisread` | client/Assets/Plugins/Sproto/SprotoTypeSerialize.cs:165-195 | from client to server, a uint64 field holding 2^64 - 1 comes back as 2^32 - 1 |
| `RoundTrip.NilFilled` | server/src/github.com/davyxu/gosproto/encode.go:251 | a list with one nil element comes back, in either language, with an object without fields |
| `Delivery.WrittenExactly` | client/Assets/Script/Proto/sp.cs:122-132 | the client writes every field that is set except empty lists, the server every field that is neither nil nor false, zero or the empty string |
| `Delivery.MissingField` | server/src/github.com/davyxu/gosproto/decode.go:236-246 | a field that is not found stays unset at the client, and nil, false, zero or empty at the server |
| `Delivery.LeafSeen` | server/src/github.com/davyxu/gosproto/decode.go:55-149 | booleans, strings, byte strings and their lists are seen as they are by both decoders, integers too except the 64-bit ones named |
| `Delivery.FieldArrives` | server/src/github.com/davyxu/gosproto/decode.go:248-269 | for every pair of languages and schemas: a field that the sender has set, that is no empty list (client) or zero (server), and that the receiver knows, arrives |
| `Delivery.FieldMissing` | server/src/github.com/davyxu/gosproto/decode.go:248-262 | and any other field of the receiver has its default |
| `Delivery.EvolvesExactly` | server/src/github.com/davyxu/gosproto/decode.go:257-261 | the schemas this holds for: any fields dropped or added, as long as a tag that both use has one kind |
| `Delivery.ClientRoundTrip` | client/Assets/Plugins/Sproto/SprotoTypeDeserialize.cs:87-570 | from client to client, with any bytes behind it, a message comes back as it was if and only if no list in it is empty and no object of a list null, at any depth |
| `Format.LESpelled` | server/src/github.com/davyxu/gosproto/encode.go:16-37 | numbers go out with their lowest byte first |
| `Format.Ranges` | server/src/github.com/davyxu/gosproto/encode.go:87-112 | the ranges of the eight integer types, and which of them the client has |
| `Format.IntIs` | server/src/github.com/davyxu/gosproto/encode.go:67-127 | an integer field against literal bounds, in both languages: embedded from 0 to 0x7ffe, else four bytes or eight bytes of two's complement |
| `Format.IntReadable` | server/src/github.com/davyxu/gosproto/decode.go:66-81 | which payloads are read as integers; an empty chunk is zero at the server |
| `Format.ListIs` | server/src/github.com/davyxu/gosproto/encode.go:179-202 | a list of integers against literal bounds: the width, then every element in it |
| `Format.StrsAre` | server/src/github.com/davyxu/gosproto/encode.go:161-177 | a list of strings: each behind its length in four bytes |
| `Format.BoolsAre` | server/src/github.com/davyxu/gosproto/encode.go:147-159 | a list of booleans: 1 or 0 for each |
| `Format.ObjsAre` | server/src/github.com/davyxu/gosproto/encode.go:204-223 | a list of objects: each behind its length, a nil as two zero bytes |
| `Format.MessageSpelled` | server/src/github.com/davyxu/gosproto/encode.go:245-279 | every message with one field, of every kind, tag and value, in either language, byte by byte: the count, the skip record, the value record, the length and the data |
| `Format.NothingSpelled` | server/src/github.com/davyxu/gosproto/encode.go:260-267 | a field that is left out leaves two zero bytes |
| `Format.Admitted` | server/src/github.com/davyxu/gosproto/meta.go:89-185 | the codec's theorems cover every tag up to 32767 and every kind |
| `Format.Belongs` | server/src/github.com/davyxu/gosproto/meta.go:89-185 | and every value of the kinds without numbers or objects, at both ends |
| `Format.NumbersBelong` | server/src/github.com/davyxu/gosproto/meta.go:98-104 | and every integer and list of integers in the range of its type |
| `Format.Nests` | server/src/github.com/davyxu/gosproto/meta.go:116-123 | and objects inside objects |
| `Format.ListsNest` | server/src/github.com/davyxu/gosproto/meta.go:157-164 | and lists of objects; a null in one is only known to the server |
| `Format.Unset` | server/src/github.com/davyxu/gosproto/encode.go:39-53 | and unset fields, which at the server are those of pointers and slices |
| `Examples.SimpleStruct` | server/src/github.com/davyxu/gosproto/sproto_test.go:110-124 | the repository's example of a simple struct has the bytes its test expects |
| `Examples.StructArray` | server/src/github.com/davyxu/gosproto/sproto_test.go:125-163 | so has the example with nested objects and a skipped tag |
| `Examples.Numbers` | server/src/github.com/davyxu/gosproto/sproto_test.go:254-272 | so have 100000 and -10000000000 |
| `Examples.BigNumberArray` | server/src/github.com/davyxu/gosproto/sproto_test.go:182-202 | so has the list of 64-bit numbers |
| `GoEncode.EncodeIntSlice` | server/src/github.com/davyxu/gosproto/encode.go:179-202 | the two-pass list writer produces the list format: one width for all, the least that fits |
| `GoEncode.EncodeBoolSlice` | server/src/github.com/davyxu/gosproto/encode.go:147-159 | one byte for each boolean |
| `GoEncode.EncodeChunks` | server/src/github.com/davyxu/gosproto/encode.go:161-177 | the buffer sized beforehand is filled exactly with length-prefixed chunks |
| `GoEncode.EncodeStructSlice` | server/src/github.com/davyxu/gosproto/encode.go:204-223 | the chunks are the encodings of the elements; nil is the empty object |
| `GoEncode.EncodeHeaders` | server/src/github.com/davyxu/gosproto/encode.go:233-243 | count and records, in an array with the reserved room behind them |
| `GoEncode.HeaderIs` | server/src/github.com/davyxu/gosproto/encode.go:39-85 | a field is left out exactly when the format leaves it out, and its header is the record of its payload |
| `GoEncode.EncodeField` | server/src/github.com/davyxu/gosproto/encode.go:114-145 | the data of a field of any kind, or none when it is embedded in the header |
| `GoEncode.EncodeMessage` | server/src/github.com/davyxu/gosproto/encode.go:245-279 | the loop over the fields computes the message format, for every schema and message tree |
| `GoDecode.DecodeHeader` | server/src/github.com/davyxu/gosproto/decode.go:203-234 | the header is refused exactly when it is cut short, and gives the marked tags otherwise |
| `GoDecode.DecodeIntSlice` | server/src/github.com/davyxu/gosproto/decode.go:119-149 | on every input: refused unless the width divides the data; widths above 8 are read by their first eight bytes; smaller ones other than 4 fail on the last element |
| `GoDecode.Elements` | server/src/github.com/davyxu/gosproto/decode.go:128-145 | the element loop: four bytes or the first eight of each element, and a failure when an element is cut short |
| `GoDecode.DecodeBoolSlice` | server/src/github.com/davyxu/gosproto/decode.go:106-117 | one boolean for each byte |
| `GoDecode.DecodeStringSlice` | server/src/github.com/davyxu/gosproto/decode.go:151-163 | reads exactly the chunk lists the format defines |
| `GoDecode.DecodeStruct` | server/src/github.com/davyxu/gosproto/decode.go:165-177 | an object must fill its chunk |
| `GoDecode.DecodeStructSlice` | server/src/github.com/davyxu/gosproto/decode.go:179-201 | every element must fill its chunk |
| `GoDecode.DecodeMessage` | server/src/github.com/davyxu/gosproto/decode.go:236-270 | the loop over the tags computes the format's decoder on every input, malformed ones included |
| `FieldCount.MaxFieldCount` | server/src/github.com/davyxu/gosproto/meta/struct.go:57-74 | fails exactly on descending tags, else counts fields and gaps |
| `FieldCount.RecordsWithin` | client/Assets/Plugins/Sproto/SprotoTypeSerialize.cs:22-61 | for every schema and every subset of set fields, the value and skip records are no more than that count |
| `FieldCount.RecordsExactly` | server/src/github.com/davyxu/gosproto/meta/struct.go:57-74 | with every field set the count is reached: it cannot be lowered |
| `ClientStream.SprotoStream.Expand` | client/Assets/Plugins/Sproto/SprotoStream.cs:26-44 | grows to less than twice what is needed and keeps the bytes |
| `ClientStream.SprotoStream.Write` | client/Assets/Plugins/Sproto/SprotoStream.cs:52-57 | the bytes at the position are replaced, every other byte stays, across growth |
| `ClientStream.SprotoStream.WriteByte` | client/Assets/Plugins/Sproto/SprotoStream.cs:46-49 | the same for one byte |
| `ClientStream.SprotoStream.Seek` | client/Assets/Plugins/Sproto/SprotoStream.cs:59-74 | moves anywhere, growing if needed, and keeps the bytes |
| `ClientStream.SprotoStream.SetByte` | client/Assets/Plugins/Sproto/SprotoStream.cs:94-108 | replaces one byte, written already or not; fails exactly outside the buffer |
| `ClientStream.SprotoStream.MoveUp` | client/Assets/Plugins/Sproto/SprotoStream.cs:83-92 | the overlapping copy closes the gap exactly |
| `ClientSerialize.SignBytes` | client/Assets/Plugins/Sproto/SprotoTypeSerialize.cs:39-46 | four low bytes and four bytes of sign are the eight bytes of the value |
| `ClientSerialize.Rewrite` | client/Assets/Plugins/Sproto/SprotoTypeSerialize.cs:342-393 | going back and writing the elements again in eight bytes leaves what an eight-byte writer would have left |
| `ClientSerialize.AppendIntList` | client/Assets/Plugins/Sproto/SprotoTypeSerialize.cs:197-393 | the one-pass list writer appends the size and the list format, whatever the position, the growth history and the element that first needs eight bytes |
| `ClientSerialize.FillHeader` | client/Assets/Plugins/Sproto/SprotoTypeSerialize.cs:342-393 | width and size are filled in without touching the elements or what precedes them |
| `ClientSerialize.SprotoTypeSerialize.Open` | client/Assets/Plugins/Sproto/SprotoTypeSerialize.cs:564-571 | room for the header is reserved at the stream's position, behind whatever is there |
| `ClientSerialize.SprotoTypeSerialize.WriteHeaderRecord` | client/Assets/Plugins/Sproto/SprotoTypeSerialize.cs:31-37 | the record goes behind the earlier ones; bytes before the header and data after it stay |
| `ClientSerialize.SprotoTypeSerialize.WriteTag` | client/Assets/Plugins/Sproto/SprotoTypeSerialize.cs:48-61 | a skip record for a gap, then the value record; fails, with nothing written, exactly when the skip does not fit 16 bits |
| `ClientSerialize.SprotoTypeSerialize.Close` | client/Assets/Plugins/Sproto/SprotoTypeSerialize.cs:574-586 | count, records and data end up contiguous behind the earlier bytes, and their length is returned |
| `ClientSerialize.EncodeStruct` | client/Assets/Plugins/Sproto/SprotoTypeSerialize.cs:118-130 | a nested object is appended with its size filled in afterwards |
| `ClientSerialize.EncodeStructs` | client/Assets/Plugins/Sproto/SprotoTypeSerialize.cs:521-549 | the same for a list, inside its own size |
| `ClientSerialize.AppendValue` | client/Assets/Plugins/Sproto/SprotoTypeSerialize.cs:102-130 | the data of a field of any kind is appended behind what the stream holds |
| `ClientSerialize.WriteField` | client/Assets/Plugins/Sproto/SprotoTypeSerialize.cs:396-549 | one field: its data, then its records, with the header still inside its reservation |
| `ClientSerialize.EncodeObject` | client/Assets/Plugins/Sproto/SprotoTypeSerialize.cs:564-586 | for every object tree, start position and buffer: the stream's bytes followed by exactly the message format, and its length |
| `ClientSerialize.EncodeBytes` | client/Assets/Plugins/Sproto/SprotoTypeBase.cs:42-52 | a message as a byte array is the message format |
| `ClientDeserialize.SprotoTypeReader.Read` | client/Assets/Plugins/Sproto/SprotoTypeReader.cs:62-70 | the bytes of the window, or failure exactly when it is left |
| `ClientDeserialize.SprotoTypeReader.Seek` | client/Assets/Plugins/Sproto/SprotoTypeReader.cs:57-60 | positions count from the start of the window |
| `ClientDeserialize.SprotoTypeDeserialize.Init` | client/Assets/Plugins/Sproto/SprotoTypeDeserialize.cs:41-53 | fails exactly when the header is cut short; else the fields to come are those of the header |
| `ClientDeserialize.SprotoTypeDeserialize.ReadTag` | client/Assets/Plugins/Sproto/SprotoTypeDeserialize.cs:87-108 | finds the next field, moves the cursor past it and returns to the data |
| `ClientDeserialize.SprotoTypeDeserialize.NextField` | client/Assets/Plugins/Sproto/SprotoTypeDeserialize.cs:87-108 | the record loop passes over skip records and stops at the next field's, if there is one |
| `ClientDeserialize.ReadInteger` | client/Assets/Plugins/Sproto/SprotoTypeDeserialize.cs:145-164 | embedded, four-byte and sign-extended, or eight-byte: the format's integer |
| `ClientDeserialize.ReadIntegerList` | client/Assets/Plugins/Sproto/SprotoTypeDeserialize.cs:171-423 | reads the lists the format defines and stops behind them |
| `ClientDeserialize.ReadBooleanList` | client/Assets/Plugins/Sproto/SprotoTypeDeserialize.cs:434-445 | one boolean for each byte |
| `ClientDeserialize.ReadString` | client/Assets/Plugins/Sproto/SprotoTypeDeserialize.cs:447-453 | the bytes of the chunk |
| `ClientDeserialize.ReadStringList` | client/Assets/Plugins/Sproto/SprotoTypeDeserialize.cs:455-481 | the chunks of the list |
| `ClientDeserialize.ReadObject` | client/Assets/Plugins/Sproto/SprotoTypeDeserialize.cs:523-532 | the object of the chunk, read through a window on the same buffer |
| `ClientDeserialize.ReadElement` | client/Assets/Plugins/Sproto/SprotoTypeDeserialize.cs:534-556 | one element, through a window reader that all elements share, and its size |
| `ClientDeserialize.ReadObjectList` | client/Assets/Plugins/Sproto/SprotoTypeDeserialize.cs:558-570 | the objects of the list |
| `ClientDeserialize.SkipUnknown` | client/Assets/Plugins/Sproto/SprotoTypeDeserialize.cs:590-595 | an unknown field is passed over exactly |
| `ClientDeserialize.DecodeNext` | client/Assets/Plugins/Sproto/SprotoTypeDeserialize.cs:590-595 | one turn of a generated decoder: the next field is stored, or passed over when it is unknown, and what is left still gives the format's message |
| `ClientDeserialize.DecodeObject` | client/Assets/Plugins/Sproto/SprotoTypeDeserialize.cs:87-108 | on every input the format accepts, the cursor-driven decoder returns the format's message |
| `ClientDeserialize.DecodeBytes` | client/Assets/Plugins/Sproto/SprotoTypeBase.cs:18-24 | the same for a whole buffer, with any bytes behind the message |
| `EndToEnd.UnpackedMessage` | server/src/github.com/davyxu/gosproto/sproto.go:29-45 | packing, unpacking and decoding across languages and schema versions: the padding that packing adds does no harm |
| `EndToEnd.EncodePacked` | server/src/github.com/davyxu/gosproto/sproto.go:29-36 | the packed form of the message format |
| `EndToEnd.DecodePacked` | server/src/github.com/davyxu/gosproto/sproto.go:38-45 | the message, or an error exactly when unpacking or decoding fails |
| `EndToEnd.ServerToServer` | server/src/github.com/davyxu/gosproto/sproto.go:29-45 | through the methods of both halves: the message comes back if and only if it has no misread integer and no nil element |
| `EndToEnd.ServerToClient` | client/Assets/Plugins/Sproto/SprotoPack.cs:141-186 | server encoder and packer, then client unpacker and decoder, over any two schema versions and whatever the stream holds |
| `EndToEnd.ServerMessageArrives` | server/src/github.com/davyxu/gosproto/encode.go:245-279 | under one schema the client recovers the message if and only if it has no nil element |
| `EndToEnd.ClientToServer` | client/Assets/Plugins/Sproto/SprotoPack.cs:69-138 | client encoder and packer, then server: the message arrives, except that a full run ending in a partial segment makes the client's packer fail |
| `EventList.EventList.Add` | server/src/github.com/davyxu/cellnet/socket/evtlist.go:15-21 | the event is queued last |
| `EventList.EventList.Pick` | server/src/github.com/davyxu/cellnet/socket/evtlist.go:27-55 | the events before the first nil, whether there was one, and an empty queue |
| `EventList.BeforeNilAdd` | server/src/github.com/davyxu/cellnet/socket/evtlist.go:15-55 | what adding an event means for what will be picked |
| `Session.InvKept` | server/src/github.com/davyxu/cellnet/socket/session.go:93-203 | every step of every thread keeps the invariant: what each program position says about the shared state, that no wake-up is lost, and that events are conserved |
| `Session.ReachableInv` | server/src/github.com/davyxu/cellnet/socket/session.go:93-203 | the invariant in every state reachable by any interleaving of any length |
| `Session.ClosedOnce` | server/src/github.com/davyxu/cellnet/socket/session.go:122-203 | SessionClosed is posted at most once; OnClose runs at most once, after both threads ended, the connection closed and the post made |
| `Session.GracefulClose` | server/src/github.com/davyxu/cellnet/socket/session.go:137-180 | the events handed to the write chain are a prefix, in order, of those added before the first nil; without a write failure they are all of them by the time the connection closes |
| `Session.RankFalls` | server/src/github.com/davyxu/cellnet/socket/session.go:93-203 | once a thread has ended every step of the session leads downhill, and no step of the application leads up |
| `Session.NotStuck` | server/src/github.com/davyxu/cellnet/socket/session.go:93-203 | such a state always has a next step until everything has ended |
| `Session.Completes` | server/src/github.com/davyxu/cellnet/socket/acceptor.go:79-89 | from every such state there is a run, of bounded length, that ends the session |
| `Session.EveryRunEnds` | server/src/github.com/davyxu/cellnet/socket/session.go:93-203 | every run from such a state, whatever the application does: the session takes at most a fixed number of own steps, and once it has ended it has posted once and called OnClose once |
| `SessionHistory.ReadsUntilFault` | server/src/github.com/davyxu/cellnet/socket/session.go:93-125 | in every run: the receive thread goes on reading exactly as long as no read failed and no handler refused; until then nothing is posted and every packet read is handled before the next is read; after the first fault nothing more is read or handled |
| `SessionHistory.HistoryIs` | server/src/github.com/davyxu/cellnet/socket/session.go:58-91 | the events and nils in the queue are those the application and the receive thread put there, in order; writes, posts, calls of OnClose, failed writes and the closing of the connection are counted as they happened |
| `SessionHistory.FailureEnds` | server/src/github.com/davyxu/cellnet/socket/session.go:150-168 | once a write failed, the send thread winds down: the rest of the batch is written, nothing more is picked |
| `SessionHistory.OnlySleepWaits` | server/src/github.com/davyxu/cellnet/socket/session.go:93-203 | no thread waits but the send thread on an empty queue and the goroutine that waits for both; where the outside decides, both outcomes are possible |
| `Framing.Connection.ReadFull` | server/src/github.com/davyxu/cellnet/socket/handler_privatepkt.go:52-61 | the next bytes of the stream, however it is cut into pieces; fails exactly when it is too short |
| `Framing.PrivatePacketWriter.Call` | server/src/github.com/davyxu/cellnet/socket/handler_privatepkt.go:80-112 | the frame under the current serial, which then advances and wraps |
| `Framing.PrivatePacketReader.Call` | server/src/github.com/davyxu/cellnet/socket/handler_privatepkt.go:15-67 | one packet of the stream, or the reason to stop; the serial advances only with a packet |
| `Framing.RecvThread` | server/src/github.com/davyxu/cellnet/socket/session.go:93-125 | the receive loop delivers what the stream defines, and stops at the first refusal |
| `Framing.ClientSocket.GenSendTag` | client/Assets/Script/Network/ClientSocket.cs:466-474 | tags are handed out in turn and wrap at 16 bits |
| `Framing.ClientSocket.SendPacket` | client/Assets/Script/Network/ClientSocket.cs:428-463 | the frame under the next tag |
| `Framing.ClientSocket.ReadPacket` | client/Assets/Script/Network/ClientSocket.cs:377-422 | the wanted bytes, collected piece by piece through a 1024-byte buffer |
| `Framing.ClientSocket.ReadOne` | client/Assets/Script/Network/ClientSocket.cs:291-353 | one packet of the stream, or the reason to stop |
| `Framing.ClientRecvThread` | client/Assets/Script/Network/ClientSocket.cs:285-294 | the client's loop delivers what the stream defines |
| `Framing.WriteAll` | server/src/github.com/davyxu/cellnet/socket/handler_privatepkt.go:80-112 | the frames of any list of packets from the server, with serials in lockstep through every wrap-around |
| `Framing.SendAll` | client/Assets/Script/Network/ClientSocket.cs:428-474 | the same for the client's sender |
| `Framing.CutAnyway` | client/Assets/Script/Network/ClientSocket.cs:377-422 | every division of a stream into pieces is one of those the next two methods range over |
| `Framing.DeliverFrame` | server/src/github.com/davyxu/cellnet/socket/handler_privatepkt.go:46-66 | a frame is taken exactly when it carries the expected serial |
| `Framing.FrameOutcome` | server/src/github.com/davyxu/cellnet/socket/handler_privatepkt.go:39-66 | what becomes of a frame of any size its header can hold: refused out of turn or above the server's limit, delivered otherwise; a size of 2^31 and more is an empty packet to the client, which goes on reading inside the body |
| `Framing.SendableExactly` | server/src/github.com/davyxu/cellnet/socket/handler_privatepkt.go:39-66 | the packets the theorems allow are exactly those a reader delivers as they are |
| `Framing.CutShort` | server/src/github.com/davyxu/cellnet/socket/handler_privatepkt.go:52-61 | a frame that breaks off is not delivered; a missing body is a fault to the server and an end to the client |
| `Framing.BrokenStream` | server/src/github.com/davyxu/cellnet/socket/handler_privatepkt.go:15-67 | a connection that breaks anywhere inside a frame has delivered everything before it |
| `Framing.StreamArrives` | server/src/github.com/davyxu/cellnet/socket/handler_privatepkt.go:15-112 | for every list of packets within the limits, of any length, reader and writer stay in lockstep and the same list is delivered |
| `Framing.ServerToClient` | client/Assets/Script/Network/ClientSocket.cs:301-422 | the server's writer, the stream cut into pieces of any sizes, the client's loop: the same list is delivered |
| `Framing.ClientToServer` | server/src/github.com/davyxu/cellnet/socket/handler_privatepkt.go:15-67 | the client's sender, the stream cut into pieces of any sizes, the server's receive loop under its size limit: the same list |
| `Framing.OnlyAPrefix` | server/src/github.com/davyxu/cellnet/socket/handler_privatepkt.go:46-66 | with fewer than 65536 packets sent, any sequence of dropped, repeated or reordered frames delivers exactly the prefix up to the first frame out of turn, and that one is refused |
| `Framing.ReplayAccepted` | server/src/github.com/davyxu/cellnet/socket/handler_privatepkt.go:46-66 | at 65536 packets the bound is sharp: a repeated first frame is taken for a new packet |
| `StringHash.HashTable.InitTable` | server/src/github.com/davyxu/cellnet/util/strhash.go:9-36 | the nested loops fill the table with eight shift rounds of every index, once |
| `StringHash.HashTable.StringHash` | server/src/github.com/davyxu/cellnet/util/strhash.go:39-53 | the table-driven fold computes the hash of the specification |
| `StringHash.EntryLinear` | server/src/github.com/davyxu/cellnet/util/strhash.go:19-33 | the table is linear over exclusive or |
| `StringHash.EntryTop` | server/src/github.com/davyxu/cellnet/util/strhash.go:19-33 | only the zero index has a zero top byte, so with linearity the top byte is a permutation |
| `StringHash.HashDifference` | server/src/github.com/davyxu/cellnet/util/strhash.go:45-50 | the difference of two hashes is the hash of the differences of the names |
| `StringHash.Persists` | server/src/github.com/davyxu/cellnet/util/strhash.go:45-50 | a difference neither arises nor vanishes while the names agree in their low bytes |
| `StringHash.BurstDistinct` | server/src/github.com/davyxu/cellnet/util/strhash.go:39-53 | names of equal length that differ only inside four consecutive positions hash alike if and only if their low bytes agree everywhere |
| `StringHash.FiveCollide` | server/src/github.com/davyxu/cellnet/util/strhash.go:39-53 | five positions are not enough: every start character can be completed to a collision |
| `HashValues.RoundTakes` | server/src/github.com/davyxu/cellnet/util/strhash.go:23-32 | a shift round takes off the generator 0x104c11db7 exactly when the highest bit calls for it |
| `HashValues.EntryIsRemainder` | server/src/github.com/davyxu/cellnet/util/strhash.go:19-33 | entry i of the table is the remainder of i times x^32 in a carry-less division by 0x104c11db7 |
| `HashValues.EnterGame` | server/src/github.com/davyxu/cellnet/util/strhash_test.go:7-15 | the two names of the repository's test have the ids it expects |
| `Registry.CoderAsAnnounced` | server/src/github.com/davyxu/gosproto/meta.go:89-185 | a field is accepted only with the coder its annotation announces, except that strings are accepted under every annotation; it needs another description exactly when that coder is one for structs |
| `Registry.AcceptedExactly` | server/src/github.com/davyxu/gosproto/meta.go:89-185 | which fields are accepted and what they get: exactly those whose Go type has a kind that the annotation announces, and strings; the coder of that kind and the description it points at |
| `Registry.PlanExactly` | server/src/github.com/davyxu/gosproto/meta.go:187-205 | a field without annotation is described without a coder, a malformed annotation is an error |
| `Registry.SprotoType.Sort` | server/src/github.com/davyxu/gosproto/meta.go:214-220 | `order` becomes a permutation of the fields sorted by tag |
| `Registry.SprotoType.FieldByTag` | server/src/github.com/davyxu/gosproto/meta.go:222-227 | finds the field with the tag if and only if there is one |
| `Registry.SprotoType.AddField` | server/src/github.com/davyxu/gosproto/meta.go:261-269 | reports a repeated tag exactly, else keeps the tag map the inverse of the fields |
| `Registry.OrderIsStrict` | server/src/github.com/davyxu/gosproto/meta.go:272-274 | the encoder's walk along `order` meets every field and the tags in strictly ascending order |
| `Registry.Registry.CompleteIsGood` | server/src/github.com/davyxu/gosproto/meta.go:239-275 | a complete description exists only for a type without faults whose targets are all registered |
| `Registry.Registry.GoodIsComplete` | server/src/github.com/davyxu/gosproto/meta.go:239-275 | in every registry, whatever calls failed before, a registered type from which no fault can be reached is complete, and so is all below it |
| `Registry.Registry.Withdraw` | server/src/github.com/davyxu/gosproto/meta.go:256-259 | withdrawing a type at fault leaves no description that is free of faults pointing at it |
| `Registry.Registry.InitField` | server/src/github.com/davyxu/gosproto/meta.go:89-205 | one field: described as declared, with the description of its target, or an error that the field or its target deserves |
| `Registry.Registry.Fill` | server/src/github.com/davyxu/gosproto/meta.go:253-270 | the loop over the fields; a field's error withdraws the description, a repeated tag does not |
| `Registry.Registry.GetLocked` | server/src/github.com/davyxu/gosproto/meta.go:239-275 | the recursion ends on every finite, possibly cyclic program, adds only types reachable from the one asked for and changes no earlier description; on success all that it added is complete except what is still being built; on failure it says where it stopped, what earlier fields needed stays registered, and the type itself stays exactly when a repeated tag stopped it |
| `Registry.Registry.GetSprotoType` | server/src/github.com/davyxu/gosproto/meta.go:229-237 | after any history of calls, failed ones included: it succeeds if and only if no fault can be reached through types not yet registered; and it succeeds with every reachable type registered, its order sorted and its tag map inverse, if and only if no reachable type has a fault |
| `Registry.Registry.AskTwice` | server/src/github.com/davyxu/gosproto/meta.go:239-275 | the second answer goes by what the first call left registered; a type refused for a repeated tag is handed out the second time |
| `Registry.WithdrawnTarget` | server/src/github.com/davyxu/gosproto/meta.go:256-259 | a program where that goes wrong: of two types that refer to each other the first is refused and withdrawn, and the second is handed out, pointing at nothing registered |
| `Registry.RepeatedTag` | server/src/github.com/davyxu/gosproto/meta.go:263-269 | another: a type with the same tag twice is refused once and handed out half built after that |
| `Described.AsDeclared` | server/src/github.com/davyxu/gosproto/meta.go:187-205 | a complete description holds for every field the declared tag, the coder of its kind and the registered description of its target |
| `Described.DescribesType` | server/src/github.com/davyxu/gosproto/meta.go:272-274 | the encoder's walk along a complete description meets exactly the encoded fields, tag and kind, in ascending order of tags |
| `Described.SchemaIsOk` | server/src/github.com/davyxu/gosproto/meta.go:239-275 | the types of a program that the registry accepts form a schema that the codec's theorems are about |
| `ChainManager.Manager.AddChainRecv` | server/src/github.com/davyxu/cellnet/handlerchainmgr.go:49-63 | the chain is registered under the next 64-bit serial; no list is touched |
| `ChainManager.Manager.RemoveChainRecv` | server/src/github.com/davyxu/cellnet/handlerchainmgr.go:65-73 | the id is removed; no list is touched |
| `ChainManager.Manager.ChainListRecv` | server/src/github.com/davyxu/cellnet/handlerchainmgr.go:110-128 | a list of all registered chains, each once, in some order; the cached array or a fresh one, and no array handed out earlier is written |
| `ChainManager.RegisteredExactly` | server/src/github.com/davyxu/cellnet/handlerchainmgr.go:49-73 | after any sequence of operations with fewer than 2^64 additions: an id is registered if and only if one addition returned it and nothing removed it since, with that addition's chain |

## Left out

- ClientDeserialize.DecodeObject: describes only input that the format accepts; on other input the client throws, or its byte reader runs past a window inside the same array and goes on.
- ClientDeserialize.DecodeNext: the same.
- ClientDeserialize.DecodeBytes: the same.
- ClientDeserialize.ReadInteger: the same, for chunks of other lengths.
- ClientDeserialize.ReadIntegerList: the same, for widths other than 4 and 8.
- ClientDeserialize.ReadBooleanList: the same, when no complete chunk is at the position.
- ClientDeserialize.ReadString: the same.
- ClientDeserialize.ReadStringList: the same.
- ClientDeserialize.ReadObject: the same.
- ClientDeserialize.ReadElement: the same.
- ClientDeserialize.ReadObjectList: the same.
- ClientDeserialize.SkipUnknown: the same.
- ClientPack.SprotoPack.UnpackBlock: when the message is shorter than the array and malformed, the client may read bytes behind it, which is not described.
- ClientPack.SprotoPack.Unpack: the same; only well-formed messages are described there.
- RoundTrip.DecodeEncode: encodings of 2^32 bytes and more are outside it, because lengths have four bytes.
- Session.Completes: the handlers, the write chain and OnClose are taken to return, and memory to be sequentially consistent.
- The exception that `SprotoStream._expand` throws from 0x1000000 bytes on, and the stream's state after it.
- What the server does where it panics instead of returning an error (an integer list of width 0 or with fewer than eight bytes left for an element, a boolean without an embedded value); the model answers `Err`.
- Fields of type float, enum and dictionary, null strings and null list elements at the client, and the conversion between text and UTF-8.
- `reflect`: schemas and struct types are given as data, and a struct annotation as what it parses to.
- Sockets, deadlines, listeners, name resolution, websockets, timers, logging and the user interface; a connection is the bytes it still has to deliver.
- The retry loop of `writeFull`: one complete write is taken for granted.
- Request and reply matching of the rpc package, which never compares call ids.
- Starting and stopping of peers, and the connector, which sets OnClose after the session runs.
- `goobjfmt`, `golexer`, the schema parser and the code generators; only `MaxFieldCount` is taken from there.
- The send chain and the chain creators of the handler chain manager: plain getters and setters under a lock.
- The generated client classes: their calls, one write or read per field in tag order, are modelled as a loop over the schema.
