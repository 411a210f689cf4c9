# sdlog2 binary log decoder, modelled in Dafny

`Tools/sdlog2_dump.py` reads a binary flight log written by the `sdlog2`
logger and turns it into readable records. Every record starts with the
marker bytes `0xA3 0x95` and a type byte.

- **Schema records** have type `0x80` and are 89 bytes long. The payload
  holds a type byte, a declared record length, a 4-byte name, a 16-byte
  format string and a 64-byte comma-joined label string, all NUL-padded. A
  schema record registers a descriptor for its type, replacing any earlier
  one. Each format character is translated through a fixed table into a
  little-endian `struct` code and an optional multiplier.
- **Data records** have any other type byte. A data record is as long as
  its descriptor declares. It is decoded field by field: strings are
  stripped of NULs, and scaled integers are multiplied. Each value is
  paired with its label.

The parser reads the file in blocks of 8192 bytes. It keeps the unconsumed
tail of the previous block in front of each new one and consumes records
while a header's worth of bytes is left. A data record that is not complete
yet waits for the next block. A bad header, an unknown type, a format
character missing from the table and a schema record with fewer than 89
bytes left all abort the decode.

The project is organised as follows:

- **`Wrappers`**: `Option` and `Result`.
- **`Bytes`**: `Strip` (`str.strip('\0')`), and `Split`/`Join` on a
  separator byte, with their round trips.
- **`LittleEndian`**: unsigned and two's-complement little-endian
  integers, with their round trips.
- **`FormatTable`**: the constants of `FORMAT_TO_STRUCT` as `Lookup`, and
  the translation of a format string, as a function (`Translate`) and as
  the loop of `_parse_msg_descr` (`TranslateFormat`).
- **`Records`**: descriptors, the payload decoder of a schema record
  (`ParseDescr`) and its encoder, `struct.unpack`/`pack` for a field list,
  and the decoding of a data record's body into labelled fields.
- **`Framing`**: the parser's behaviour on values.
  - `Step` is one pass of the inner loop of `process`.
  - `Drain` is the inner loop over one buffer.
  - `Run` is the outer loop over a list of chunks.
  - `Blocks` is the chunks `f.read(8192)` returns for a file, and
    `DecodeFile` is the whole decode of a file.
- **`FramingProperties`**: lemmas about `Step`, `Drain` and `Run`. They
  cover every abort and the wait, encoded streams decoding back to their
  values, and how the decode reacts to moving chunk boundaries.
- **`Sdlog2Parser`**: the `SDLog2Parser` object itself, as a class.
  - Its fields are `buffer`, `ptr` and `descrs` (`msg_descrs`), plus
    `out`, the events it has printed.
  - Its methods are `Reset`, `ParseMsgDescr`, `ParseMsg`, `ConsumeRecord`
    (one pass of the inner loop), `Feed` (one pass of the outer loop) and
    `Process`.
  - Each method is proved against the `Framing` function that describes it.
    `Process` ends in the state `DecodeFile(file)` describes.
  - `_bytes_left` is `Framing.BytesLeft`.

Where the behaviour could be read otherwise, the model follows the code:

- String fields are stripped of NUL bytes at both ends (`strip('\0')`), not
  cut at the first NUL. An interior NUL is kept (`StripKeepsInteriorNul`).
- A schema record with fewer than 89 bytes left raises `BufferUnderflow`.
  Nothing catches it, so it aborts the decode; it never waits for more
  input. A schema record cut by a block boundary therefore aborts a decode
  that would succeed on the same bytes in one piece
  (`SplitSchemaRecordAborts`).
- Cutting the input between two chunks changes nothing when the loop over
  the first part does not fail (`RunMerge`). When it fails with any error
  other than an underflow, the same events are printed and the decode
  aborts with the same error; the only difference is that the second chunk
  is left unread as well (`RunMergeFails`). An underflow, that is a schema
  record cut by the boundary, is the one case where the cut changes the
  outcome.
- Bytes left over at the end of the file are dropped without an error
  (`TrailingBytesDropped`).
- A data record's body is `buffer[ptr+3:ptr+length]`, which Python makes
  empty when the declared length is below 3.

## Model

| member | source | states |
|---|---|---|
| FormatTable.Lookup | Tools/sdlog2_dump.py:23-42 | a character has an entry exactly when it is one of the 18 keys of the table; every entry has a positive width, and only integer codes carry a multiplier |
| FormatTable.Translate | Tools/sdlog2_dump.py:94-101 | the translation succeeds exactly when every character has an entry; then it is one entry per character, in order; otherwise it names a character without an entry |
| FormatTable.TranslateFirstUnsupported | Tools/sdlog2_dump.py:94-100 | the character reported is the first one without an entry |
| FormatTable.TranslateOne | Tools/sdlog2_dump.py:94-98 | a one-character format string translates to that character's table entry |
| FormatTable.TranslateFormat | Tools/sdlog2_dump.py:92-101 | the loop over the format characters computes the translation, stopping at the first unknown character |
| Bytes.Strip | Tools/sdlog2_dump.py:88-90 | the result has no NUL at either end and is no longer than the input |
| Bytes.StripPadded | Tools/sdlog2_dump.py:88-90 | stripping a NUL-padded field gives back the text it holds, whatever the padding on either side |
| Bytes.StripDecomposes | Tools/sdlog2_dump.py:88-90 | every byte string is the stripped string with NUL runs on either side |
| Bytes.StripPad | Tools/sdlog2_dump.py:88-90 | a NUL-padded fixed-width field strips back to its text |
| Bytes.StripIdempotent | Tools/sdlog2_dump.py:113 | stripping twice is stripping once |
| Bytes.StripKeepsInteriorNul | Tools/sdlog2_dump.py:113 | a NUL inside a string survives the strip |
| Bytes.SplitSepFree | Tools/sdlog2_dump.py:90 | no label produced by the comma split contains a comma |
| Bytes.JoinSplit | Tools/sdlog2_dump.py:90 | joining the split parts with commas gives back the label string |
| Bytes.SplitJoin | Tools/sdlog2_dump.py:90 | splitting comma-joined comma-free labels gives back the labels |
| LittleEndian.UnsignedEncode | Tools/sdlog2_dump.py:101 | decoding an unsigned little-endian encoding gives back the value |
| LittleEndian.EncodeUnsigned | Tools/sdlog2_dump.py:101 | encoding the unsigned value of some bytes gives back the bytes |
| LittleEndian.SignedEncode | Tools/sdlog2_dump.py:101 | decoding a two's-complement little-endian encoding gives back the value |
| LittleEndian.EncodeSignedOf | Tools/sdlog2_dump.py:101 | encoding the signed value of some bytes gives back the bytes |
| Records.ParseDescr | Tools/sdlog2_dump.py:85-101 | a schema payload decodes exactly when its stripped format string is supported; the type is the payload's first byte; there is one field spec per format character; the error names an unknown character and the record's type |
| Records.ParseEncodeDescr | Tools/sdlog2_dump.py:85-101 | decoding an encoded schema payload gives back its type, length, name, format, labels and the translated field specs |
| Records.EncodeDescrLayout | Tools/sdlog2_dump.py:21 | the payload layout is `BB4s16s64s`: type, length, then the three NUL-padded strings at offsets 2, 6 and 22 |
| Records.UnpackFieldFits | Tools/sdlog2_dump.py:109 | every decoded field value lies in the range of its wire type |
| Records.UnpackAll | Tools/sdlog2_dump.py:109 | every decoded value fits its wire type, one value per code |
| Records.Unpack | Tools/sdlog2_dump.py:109 | `struct.unpack` succeeds exactly when the body has the size the codes add up to |
| Records.UnpackPackField | Tools/sdlog2_dump.py:109 | packing a fitting value and unpacking it gives back the value |
| Records.PackUnpackField | Tools/sdlog2_dump.py:109 | unpacking a field and packing it gives back the bytes |
| Records.UnpackPack | Tools/sdlog2_dump.py:109 | unpacking packed values gives back the values |
| Records.PackUnpack | Tools/sdlog2_dump.py:109 | packing unpacked values gives back the body |
| Records.LabelledAt | Tools/sdlog2_dump.py:111-117 | field k carries label k and value k, stripped if it is a string and tagged with its multiplier if it is a scaled integer |
| Records.DecodeRecord | Tools/sdlog2_dump.py:107-117 | a data record's body decodes exactly when its size matches the codes and there is a label for every value; otherwise the error says which of the two failed |
| Records.DecodePacked | Tools/sdlog2_dump.py:107-117 | decoding packed values gives the labelled, finished values |
| Records.ScaledHundredths | Tools/sdlog2_dump.py:34 | the table translates `c` to a signed 16-bit field scaled by hundredths, and a `c` field holding 314 decodes to 314 hundredths |
| Records.ScaledTenMillionths | Tools/sdlog2_dump.py:38 | the table translates `L` to a signed 32-bit field scaled by ten-millionths, and an `L` field holding 12345670 decodes to 12345670 ten-millionths |
| Framing.Register | Tools/sdlog2_dump.py:85-105 | a registration consumes 89 bytes, is keyed by the payload's type byte, and replaces that type's entry |
| Framing.SchemaStep | Tools/sdlog2_dump.py:82-105 | a schema record never waits for more input; when it succeeds it consumes 89 bytes and its event replaces the registry entry |
| Framing.DataStep | Tools/sdlog2_dump.py:107-120 | a complete data record never waits; when it succeeds it consumes its declared length, leaves the registry unchanged and emits its body |
| Framing.DataStepDecodes | Tools/sdlog2_dump.py:107-120 | a data record is consumed exactly when its body decodes; its fields are the decoded ones and its error is the decoder's |
| Framing.Step | Tools/sdlog2_dump.py:61-76 | a consumed record moves the position forward within the buffer and updates the registry by its event; a schema event is consumed as 89 bytes, a data event as its declared length; waiting happens only for a registered data type whose bytes are not all there |
| Framing.Drain | Tools/sdlog2_dump.py:61-76 | the inner loop ends inside the buffer, and it ends because fewer than 3 bytes are left exactly when it is exhausted |
| Framing.DrainReplays | Tools/sdlog2_dump.py:67-68 | the registry after the inner loop is the starting one with the registrations of its events applied in order |
| Framing.Run | Tools/sdlog2_dump.py:55-76 | an aborted decode leaves at least a header in the buffer; the final registry is the registrations of the events replayed |
| Framing.Blocks | Tools/sdlog2_dump.py:55-58 | every chunk read is non-empty and at most 8192 bytes |
| Framing.ReplayAppend | Tools/sdlog2_dump.py:104 | replaying two event lists one after the other is replaying their concatenation |
| FramingProperties.BadHeaderAborts | Tools/sdlog2_dump.py:62-65 | a wrong marker aborts at once with the two bytes found, consuming nothing and without searching for the next marker |
| FramingProperties.UnknownTypeAborts | Tools/sdlog2_dump.py:69-72 | a data record of an unregistered type aborts with its type |
| FramingProperties.ShortSchemaAborts | Tools/sdlog2_dump.py:83-84 | a schema record with fewer than 89 bytes left aborts with the number of bytes left |
| FramingProperties.ShortSchemaUnderflows | Tools/sdlog2_dump.py:83-84 | a schema record with fewer than 89 bytes left underflows |
| FramingProperties.SchemaStepParses | Tools/sdlog2_dump.py:85-105 | a complete schema record registers what bytes 3 to 89 decode to, or fails as that decoding does |
| FramingProperties.IncompleteDataWaits | Tools/sdlog2_dump.py:73-75 | an incomplete data record stops the inner loop without moving the position or touching the registry |
| FramingProperties.SchemaDispatch | Tools/sdlog2_dump.py:67-68 | a valid header with type 0x80 is handed to the schema parser |
| FramingProperties.DataDispatch | Tools/sdlog2_dump.py:69-76 | a complete data record of a registered type is handed to the data parser with its descriptor |
| FramingProperties.SpinningAborts | Tools/sdlog2_dump.py:73-76 | a registered data record of declared length 0 with nothing to decode is reported as stuck |
| FramingProperties.DrainAdvance | Tools/sdlog2_dump.py:61-76 | consuming a record moves its event from the rest of the loop to the events already produced |
| FramingProperties.DrainStop | Tools/sdlog2_dump.py:61-76 | a loop that cannot consume a record ends where it started; fewer than 3 bytes means exhausted, an incomplete record means waiting, and an error means that error |
| FramingProperties.TwoRecordDrain | Tools/sdlog2_dump.py:61-76 | two records that fill the buffer give their two events and exhaust it |
| FramingProperties.SchemaRecordRegisters | Tools/sdlog2_dump.py:82-105 | a well-formed encoded schema record registers exactly the descriptor it encodes and consumes 89 bytes |
| FramingProperties.ReplayKeepsEntry | Tools/sdlog2_dump.py:104 | a type's entry survives every event that does not register that type |
| FramingProperties.DataRecordDecodes | Tools/sdlog2_dump.py:107-120 | an encoded data record advances by its declared length and decodes back to its labelled values |
| FramingProperties.SchemaThenDataSteps | Tools/sdlog2_dump.py:61-120 | a schema record followed by a data record of that type registers and then decodes the values encoded |
| FramingProperties.SchemaThenData | Tools/sdlog2_dump.py:61-120 | that two-record stream gives the registration, then the decoded values, and ends exactly at the end of the buffer |
| FramingProperties.FloatExample | Tools/sdlog2_dump.py:30 | schema "TST"/"f"/"VAL" of length 7 followed by the bytes of 3.5 gives one registration and one record with VAL holding those four bytes, ending at byte 96 |
| FramingProperties.FloatSchema | Tools/sdlog2_dump.py:30 | `f` translates to one 4-byte float field, and the example schema is well formed |
| FramingProperties.SchemaStepExtend | Tools/sdlog2_dump.py:59 | a complete schema record is parsed the same however many bytes follow it |
| FramingProperties.DataStepExtend | Tools/sdlog2_dump.py:59 | a complete data record is parsed the same however many bytes follow it |
| FramingProperties.StepExtend | Tools/sdlog2_dump.py:59 | a consumed record is consumed the same however many bytes follow it |
| FramingProperties.DrainExtend | Tools/sdlog2_dump.py:59-76 | appending bytes to a buffer whose loop did not fail keeps its events and continues from where it stopped |
| FramingProperties.SchemaStepShift | Tools/sdlog2_dump.py:59-60 | dropping consumed bytes in front does not change how a schema record is parsed |
| FramingProperties.DataStepShift | Tools/sdlog2_dump.py:59-60 | dropping consumed bytes in front does not change how a data record is parsed |
| FramingProperties.StepShift | Tools/sdlog2_dump.py:59-60 | dropping consumed bytes in front does not change a step |
| FramingProperties.DrainShift | Tools/sdlog2_dump.py:59-60 | the inner loop on a buffer with a prefix dropped gives the same events, with positions shifted by the prefix |
| FramingProperties.BlocksConcat | Tools/sdlog2_dump.py:55-58 | the chunks read, concatenated, are the whole file |
| FramingProperties.BlocksFull | Tools/sdlog2_dump.py:56 | every chunk but the last is a full 8192-byte block |
| FramingProperties.BlocksFrom | Tools/sdlog2_dump.py:56 | the next read from an offset takes the next 8192 bytes, or what is left |
| FramingProperties.ContinueThen | Tools/sdlog2_dump.py:59-76 | continuing after two loops is continuing after the second, with the first one's events in front |
| FramingProperties.DrainMerged | Tools/sdlog2_dump.py:59-76 | the inner loop over two chunks merged is the loop over the first, then over its tail plus the second |
| FramingProperties.RunMerge | Tools/sdlog2_dump.py:55-76 | merging two chunks does not change the decode, unless the loop on the first part fails |
| FramingProperties.StepExtendFails | Tools/sdlog2_dump.py:62-76 | a record that fails with anything but an underflow fails the same way whatever bytes follow the buffer |
| FramingProperties.DrainExtendFails | Tools/sdlog2_dump.py:59-76 | an inner loop that fails with anything but an underflow does exactly the same when more bytes follow |
| FramingProperties.RunMergeFails | Tools/sdlog2_dump.py:55-76 | when the loop over the first of two chunks fails with anything but an underflow, merging the chunks gives the same events, registry and error; only the second chunk is additionally left unread |
| FramingProperties.SchemaRecordAlone | Tools/sdlog2_dump.py:82-105 | a schema record on its own registers and exhausts the buffer |
| FramingProperties.SchemaRecordCut | Tools/sdlog2_dump.py:83-84 | the first 3 to 88 bytes of a schema record underflow |
| FramingProperties.SplitSchemaRecordAborts | Tools/sdlog2_dump.py:56-59 | a schema record split across two chunks aborts with an underflow, while the same bytes in one chunk decode |
| FramingProperties.TrailingBytesDropped | Tools/sdlog2_dump.py:55-58 | at the end of the input the decode completes and the bytes after the last consumed record are left unused |
| Sdlog2Parser.Parser.constructor | Tools/sdlog2_dump.py:44-50 | a new parser is in the state `reset` leaves, with nothing printed |
| Sdlog2Parser.Parser.Reset | Tools/sdlog2_dump.py:47-50 | the registry and buffer are empty and the position is 0; nothing printed is lost |
| Sdlog2Parser.Parser.ParseMsgDescr | Tools/sdlog2_dump.py:82-105 | the method does what SchemaStep says: on success the position moves by 89, the descriptor is registered and the event printed; on error nothing changes |
| Sdlog2Parser.Parser.ParseMsg | Tools/sdlog2_dump.py:107-120 | the method does what DataStep says; the fields it returns are the decoding of the record's body |
| Sdlog2Parser.Parser.ConsumeRecord | Tools/sdlog2_dump.py:62-76 | one pass of the inner loop does what Step says: it consumes a record, waits, or fails with Step's error, changing nothing when it does not consume |
| Sdlog2Parser.Parser.Feed | Tools/sdlog2_dump.py:59-76 | the buffer becomes the unconsumed tail plus the chunk; position, registry and printed events are those of Drain from 0; the error is Drain's |
| Sdlog2Parser.Parser.Process | Tools/sdlog2_dump.py:52-77 | after reset and reading the file block by block, the printed events, the registry and the unconsumed bytes are those of DecodeFile; the error is the one it aborts with |

## Left out

- File handling (`open`, `f.read`, `f.close`, lines 54-56 and 77): the file is a byte sequence, and the blocks read are `Blocks(file)`.
- Printing (lines 102-103 and 119): every printed line is an event in `out`. A schema record gives `Registered(typ, descr)`. A data record gives `Message(descr, body)`, whose decoded label/value pairs are `Fields`. The text layout of the lines and `str()` of the values are not modelled.
- The `struct` format string built at lines 97 and 101 is not modelled as text: the list of field specs stands in for it.
- Floating point: `f` fields are kept as their four raw bytes. A scaled integer is kept as the raw integer with a `Scale` tag (hundredths or ten-millionths); the float product is not computed.
- `_main` (lines 122-132): command-line handling and I/O.
- The `msg_descr == None` branch (line 71) cannot be reached: a missing key already raises `KeyError` at line 70. Both abort, and the model has one error, `UnknownMsgType`.
- Error messages: each exception is a constructor of `Records.Error` carrying the data its message shows. The `struct.error` on a body of the wrong size is `SizeMismatch`, and the `IndexError` on a missing label is `MissingLabel`.
- A registered data record of declared length 0 whose body decodes to nothing makes the source loop forever without moving. The model reports it as `Stuck` instead.
- `__init__` does nothing, and the fields exist only once `reset` runs. The model's constructor sets up the reset state straight away.
