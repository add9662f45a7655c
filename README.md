# tycho, modelled in Dafny

tycho is a Rust library that turns a self-describing element tree (unit, values,
options, variants, structs, lists, typed arrays, typed maps and compressed
sub-elements) into bytes and back. This project models four parts of it.

- **The nibble-prefixed format** (src/ident.rs, src/values.rs, src/encode/*,
  src/decode/*, src/ser/*). Every element starts with one byte: its element ident in
  the high nibble and an operand in the low one. Lengths use a 2-bit size class
  (`encode_variable_length`). The decoder is a cursor over a byte vector
  (`decode::reader::Reader`). The serializers work out whether a sequence can be a
  typed list (`SeqSerializer::optimise_value`) and check map keys (`TychoMapSerializer`).
- **The byte-prefixed format** (src/into/*, src/write/*, src/read/*). One tag byte is
  followed by a body. Lengths are unsigned LEB128. Structs, lists, arrays, maps and
  compressed elements are framed by a length. Numbers carry a one-byte number ident.
- **The partial reader** (src/partial/*). It reads the same byte-prefixed format lazily
  over a seekable stream. A struct, list, array or map is returned as a pointer
  (position, size, reader ident) with a head. `next_item` seeks to the head, reads one
  item, moves the head and seeks back.
- **`Uuid`** (src/uuid/mod.rs). It covers the 128-bit number, its big-endian bytes,
  `version`, `v4` masking, lowercase hex with and without hyphens, and strict and lossy
  parsing.

Each reading operation is written twice:

- as a specification function on `(data, position)` that returns the value and the
  next position, or the error — `XAt`;
- as a method over a mutable cursor whose `ensures` ties its result and new position
  to that function.

The modules follow the source's layout:

| Area | Modules |
|---|---|
| nibble format | `NibbleIdent`, `NibbleValues`, `NibbleEncode`, `NibbleReader`, `NibbleDecodeSpec`, `NibbleDecode`, `NibbleDecodeLemmas`, `NibbleElementLemmas`, `NibbleSer` |
| byte-prefixed format | `TychoErrors`, `TychoIdent`, `TychoValues`, `TychoInput`, `TychoFormat`, `TychoWrite`, `TychoReadSpec`, `TychoRead`, `TychoLemmas`, `TychoElementLemmas`, `TychoVectors` (the test vectors of src/tests/encode.rs and src/tests/numbers.rs) |
| partial reader | `PartialStream`, `PartialElements`, `PartialContainers`, `PartialTypes`, `PartialLemmas`, `PartialContainerLemmas`, `PartialVectors` |
| support | `Uuids`; `Bytes` for big-endian and two's-complement arithmetic; `Utf8` for Rust's `as_bytes` and `String::from_utf8` (UTF-8 as RFC 3629 section 3 defines it) |

The writers and readers are proved inverse to each other. On the way, the model
captures several places where the code does not invert its own encoder. These are all
modelled as the code is written, and each has a lemma that exhibits it:

- `decode_var_length` shifts by whole bytes where the encoder used 8 bits per byte *after*
  the class bits. A length of 64 or more reads back as another number: [64, 64] reads
  as 16384 (`NibbleDecodeLemmas.VarLengthDecodeVectors`, `VarLengthRoundTripIff`).
- The NIL checks in the nibble decoder's map and list arms compare the operand with
  NIL. That nibble can never be NIL, so the checks are dead
  (`NibbleElementLemmas.ContainerNilCheckDead`).
- The nibble decoder reads struct keys and variant names with `read_string`, as
  length-prefixed strings. It does not read them as the NUL-terminated strings that
  `encode_term_string` produces (`NibbleElementLemmas.VariantNameLengthPrefixed`).
- `read_number` returns `Bit(!b)`, so a written bit reads back inverted
  (`TychoLemmas.BitValueInverted`).
- `read_char` reads the number of extra bytes its lead byte's class names, and does not
  keep the lead byte. Every non-ASCII char written by `write_char` therefore fails to
  read back (`CharOverReadAtEnd`, `CharOverReadInside`, `RocketBody`). A lead byte of
  0xFE or 0xFF reads nothing and then unwraps an empty string (`CharHighLead`).
- `read_partial_element` jumps to the container's *size* as an absolute pointer rather
  than past its body. A flat container still yields its items, because `next_item` seeks
  back by absolute pointer (`PartialVectors.OneFieldCollect`). For a container nested
  inside another, the outer `next_item` moves its head by the inner body's size minus
  the item's start. When the inner size is below the item's start, that u64
  subtraction overflows and panics (`PartialVectors.NestedFails`). Otherwise the head
  moves by the wrong amount and the struct is misread. For {a: [(), (), ()]} as the
  writer emits it, the head moves by 1 instead of 5. Every later call then reads the
  key "" and the same list, and leaves the head at 1, so `collect` never returns
  (`PartialVectors.LoopingFirst`, `LoopingAgain`, `LoopingNeverEnds`).

## Model

| member | source | states |
|---|---|---|
| NibbleIdent.ValueCode | src/ident.rs:8-36 | a value ident's code is below 16 exactly when it is not NIL; NIL's code is 0xFD |
| NibbleIdent.ParseValue | src/ident.rs:38-62 | parsing succeeds exactly for nibbles below 16, never yields NIL, and yields the ident whose code is the nibble |
| NibbleIdent.ParseValueCode | src/ident.rs:33-62 | parse inverts `ident` for every value ident but NIL, and NIL's code does not parse |
| NibbleIdent.ValueCodeInjective | src/ident.rs:8-36 | distinct value idents have distinct codes |
| NibbleIdent.ElementCode | src/ident.rs:68-82 | every element ident's code fits the high nibble (below 8) |
| NibbleIdent.ParseElement | src/ident.rs:84-96 | parsing succeeds exactly for codes below 8 and yields the ident with that code |
| NibbleIdent.ParseElementCode | src/ident.rs:79-96 | element parse inverts `ident` |
| NibbleValues.IdentOf | src/values.rs:5-27 | the ident of a value is never NIL |
| NibbleValues.IdentOfOnto | src/encode/value.rs:14-33 | every ident but NIL is the ident of some value |
| NibbleValues.HashFeed | src/values.rs:30-50 | a hashable value feeds the hasher at least one item |
| NibbleValues.HashIgnoresVariant | src/values.rs:32-48 | the hash feed omits the variant: `Boolean(true)` and `Unsigned8(1)`, or `Signed8(-1)` and `Unsigned8(255)`, feed the same |
| NibbleValues.HashUnsigned64Injective | src/values.rs:37 | distinct u64 values feed distinct hash inputs |
| NibbleEncode.JoinBytes | src/encode/util.rs:3-6 | the result is a followed by b |
| NibbleEncode.PrefixBytes | src/encode/util.rs:8-11 | the result is the prefix byte followed by b |
| NibbleEncode.JoinNibs | src/encode/util.rs:13-15 | the high nibble of the result is a's low nibble and its low nibble is b's |
| NibbleEncode.JoinIdents | src/encode/util.rs:17-19 | the high nibble is the element code and the low nibble the value code |
| NibbleEncode.OneIdent | src/encode/util.rs:21-23 | the high nibble is the element code and the low nibble is zero |
| NibbleEncode.JoinIdentsLosesNil | src/encode/util.rs:17-19 | joining NIL keeps only its low nibble 0xD, which is the String code |
| NibbleEncode.SizeClass | src/encode/length.rs:4-7 | the size class is at most 3 |
| NibbleEncode.EncodeVarLength | src/encode/length.rs:2-13 | the encoding is 1 to 4 bytes long |
| NibbleEncode.VarLengthShape | src/encode/length.rs:4-11 | the encoding is class + 1 bytes long and its first byte's top two bits are the class |
| NibbleEncode.VarLengthValue | src/encode/length.rs:9-11 | with the class bits cleared, the bytes spell the masked length big-endian |
| NibbleEncode.VarLengthToBeBytes | src/encode/length.rs:9-11 | the bytes are the low class + 1 bytes of the 4-byte big-endian length, with the class added to the first |
| NibbleEncode.VarLengthSmall | src/encode/length.rs:4-11 | a length below 0x3F encodes as itself in one byte |
| NibbleEncode.VarLengthMask | src/encode/length.rs:3 | only the length modulo the 30-bit mask matters |
| NibbleEncode.VarLengthVectors | src/encode/length.rs:20-42 | the crate's own test vectors: 1, 64, 255, 1024, 42069 and 42069420 |
| NibbleEncode.EncodeString | src/encode/string.rs:4-7 | the prefix is the length prefix of the UTF-8 byte count modulo 2^30, and the bytes after it decode back to the string |
| NibbleEncode.StringLengthWraps | src/encode/string.rs:6 | the u32 cast and the length mask drop high bits, so a 2^30-byte string writes length 0 |
| NibbleEncode.EncodeTermString | src/encode/string.rs:9-13 | the UTF-8 bytes followed by one zero byte |
| NibbleEncode.FixedBodyWidth | src/encode/value.rs:37-49 | a fixed-width value's body is exactly its type's width |
| NibbleEncode.EncodeValue | src/encode/value.rs:10-55 | one byte holding the value's code (below 16), then its body |
| NibbleEncode.ShortString | src/encode/value.rs:50 | a short string's body is its one-byte length and its bytes |
| NibbleEncode.HelloWorldPrefix | src/lib.rs:173 | the prefix of a string value element is 29 |
| NibbleEncode.HelloWorldEncoding | src/lib.rs:173 | the body of "Hello World" is the documented 12 bytes |
| NibbleEncode.HelloWorldBytes | src/lib.rs:173 | "Hello World" is its 11 ASCII bytes |
| NibbleReader.OneAt | src/decode/reader.rs:24-30 | one byte is read exactly when one remains; the result is that byte, and the cursor moves by one |
| NibbleReader.ManyAt | src/decode/reader.rs:32-39 | n bytes are read exactly when n remain; the result is that slice |
| NibbleReader.OneAtByte | src/decode/reader.rs:24-30 | the byte at the position is what is read |
| NibbleReader.ManyAtBytes | src/decode/reader.rs:32-39 | the bytes at the position are what is read |
| NibbleReader.UnsignedAt | src/decode/reader.rs:58-69 | a big-endian read of w bytes is below 256^w |
| NibbleReader.SignedAt | src/decode/reader.rs:61-67 | a two's-complement read lies in the signed range of w bytes |
| NibbleReader.I8At | src/decode/reader.rs:59 | `read_i8` lies in [-128, 128) |
| NibbleReader.UnsignedAtBytes | src/decode/reader.rs:60-67 | reading the big-endian bytes of n gives n back |
| NibbleReader.SignedAtBytes | src/decode/reader.rs:61-67 | reading the two's-complement bytes of i gives i back |
| NibbleReader.Reader.Create | src/decode/reader.rs:7-9 | a cursor at position 0 over the given bytes |
| NibbleReader.Reader.Remaining | src/decode/reader.rs:16-18 | position plus remaining is the data length |
| NibbleReader.Reader.ReadOne | src/decode/reader.rs:24-30 | result and new position are `OneAt`'s; on error the position is unchanged |
| NibbleReader.Reader.ReadMany | src/decode/reader.rs:32-39 | result and new position are `ManyAt`'s; on error the position is unchanged |
| NibbleReader.Reader.PeekOne | src/decode/reader.rs:42-47 | the result `OneAt` gives, without moving |
| NibbleReader.Reader.PeekMany | src/decode/reader.rs:50-56 | the result `ManyAt` gives, without moving |
| NibbleReader.Reader.ReadI8 | src/decode/reader.rs:59 | result and position as `I8At` |
| NibbleReader.Reader.ReadUnsigned | src/decode/reader.rs:58-69 | result and position as `UnsignedAt` of the width |
| NibbleReader.Reader.ReadSigned | src/decode/reader.rs:61-67 | result and position as `SignedAt` of the width |
| NibbleDecodeSpec.VarLengthAt | src/decode/length.rs:4-12 | a parsed length consumes at least one byte and stays inside the data |
| NibbleDecode.ReadVarLength | src/decode/length.rs:4-12 | result and new position are `VarLengthAt`'s |
| NibbleDecodeLemmas.VarLengthDecodeEncode | src/decode/length.rs:7-9 | decoding an encoded length consumes all of its bytes and yields `DecodedLength`: masked length m plus 255 × (m mod 256^class) |
| NibbleDecodeLemmas.VarLengthDecodeOf | src/decode/length.rs:7-9 | the same, from any bytes with the class in the top bits |
| NibbleDecodeLemmas.VarLengthRoundTripIff | src/decode/length.rs:7-9 | a length reads back as written if and only if its low class bytes are all zero |
| NibbleDecodeLemmas.VarLengthSmallRoundTrip | src/decode/length.rs:7-9 | every length below 0x3F reads back as written |
| NibbleDecodeLemmas.VarLengthDecodeVectors | src/decode/length.rs:7-9 | [64, 64] reads 16384 and [64, 255] reads 65280 (written 64 and 255), while [68, 0] reads 1024 |
| NibbleDecodeSpec.StringAt | src/decode/string.rs:5-12 | a parsed string consumes at least one byte and stays inside the data |
| NibbleDecode.ReadString | src/decode/string.rs:5-12 | result and position as `StringAt` |
| NibbleDecodeLemmas.StringRoundTrip | src/decode/string.rs:5-12 | an encoded string whose length reads back decodes to itself, consuming its encoding |
| NibbleDecodeLemmas.StringOfBytes | src/decode/string.rs:5-12 | a length then valid UTF-8 bytes decode to that string |
| NibbleDecodeLemmas.StringBadUtf8 | src/decode/string.rs:8-11 | invalid UTF-8 gives StringDecodeError at the start of the bytes |
| NibbleDecodeSpec.TermBytesAt | src/decode/string.rs:14-28 | the scan ends just past a zero byte and returns the bytes before it |
| NibbleDecodeSpec.TermStringAt | src/decode/string.rs:14-28 | a parsed term string consumes at least its terminator |
| NibbleDecode.ReadTermString | src/decode/string.rs:14-28 | result and position as `TermStringAt` |
| NibbleDecodeLemmas.TermBytesScan | src/decode/string.rs:14-28 | NUL-free bytes followed by zero give those bytes, consuming the zero |
| NibbleDecodeLemmas.TermBytesFound | src/decode/string.rs:14-28 | a successful scan stops at the first zero and returns exactly what came before |
| NibbleDecodeLemmas.TermBytesMissing | src/decode/string.rs:17 | with no zero left the scan fails with UnexpectedEnd |
| NibbleDecodeLemmas.TermBytesFails | src/decode/string.rs:17 | the only way the scan fails is UnexpectedEnd |
| NibbleDecodeLemmas.TermStringRoundTrip | src/decode/string.rs:14-28 | a NUL-free string's term encoding decodes to itself |
| NibbleDecodeSpec.ValueAt | src/decode/value.rs:8-34 | a parsed value stays inside the data |
| NibbleDecode.DecodeValue | src/decode/value.rs:8-34 | result and position as `ValueAt` |
| NibbleDecodeLemmas.ValueRoundTrip | src/decode/value.rs:8-33 | every value whose lengths survive the length codec (`Survives`) decodes to itself, consuming its body |
| NibbleDecodeLemmas.ByteValueRoundTrip | src/decode/value.rs:10-16 | booleans, u8 and i8 round-trip |
| NibbleDecodeLemmas.SignedValueRoundTrip | src/decode/value.rs:17-20 | i16 to i128 round-trip through two's complement |
| NibbleDecodeLemmas.UnsignedValueRoundTrip | src/decode/value.rs:12-22 | u16 to u128 and both float widths (as bit patterns) round-trip |
| NibbleDecodeLemmas.BytesRoundTrip | src/decode/value.rs:28-31 | a byte string whose length reads back round-trips |
| NibbleDecodeLemmas.CharFirst | src/decode/value.rs:24-27 | a char is read as the first char of a term string |
| NibbleDecodeLemmas.CharNul | src/decode/value.rs:24-27 | the NUL char is written as [0, 0] and reads back as BadCharLength |
| NibbleDecodeLemmas.BooleanByte | src/decode/value.rs:10 | a boolean is read exactly when a byte remains, and is true exactly for the byte 1 |
| NibbleDecodeLemmas.FixedWidthConsumed | src/decode/value.rs:10-22 | a fixed-width value is read exactly when its width remains, consuming that width |
| NibbleDecodeLemmas.NilValueFails | src/decode/value.rs:32 | NIL gives LogicalDecodeError |
| NibbleDecodeLemmas.ValueErrors | src/decode/value.rs:8-34 | a value read fails only with UnexpectedEnd, StringDecodeError, BadCharLength or LogicalDecodeError |
| NibbleDecodeSpec.PrefixAt | src/decode/element.rs:11-19 | a prefix is one byte, and its operand is below 16 |
| NibbleDecode.DecodeJointPrefix | src/decode/element.rs:11-19 | result and position as `PrefixAt` |
| NibbleElementLemmas.PrefixNibbles | src/decode/element.rs:11-19 | the prefix splits into a high-nibble ident and a low-nibble operand; a high nibble of 8 or more is InvalidElementIdent |
| NibbleDecodeSpec.PrefixedAt | src/decode/element.rs:21-24 | a prefixed element consumes at least its prefix |
| NibbleDecode.DecodePrefixedElement | src/decode/element.rs:21-24 | result and position as `PrefixedAt` |
| NibbleDecodeSpec.ElementAt | src/decode/element.rs:26-99 | an element body stays inside the data |
| NibbleDecode.DecodeElement | src/decode/element.rs:26-99 | result and position as `ElementAt` of the ident and operand |
| NibbleDecode.DecodeBytes | src/decode/mod.rs:13-15 | `decode` is a prefixed element read from position 0 of a fresh reader |
| NibbleDecodeSpec.ArrayItemsAt | src/decode/element.rs:39-46 | the items stay inside the data |
| NibbleDecode.DecodeArrayItems | src/decode/element.rs:39-46 | the loop's result and position are `ArrayItemsAt`'s |
| NibbleDecodeSpec.StructEntryAt | src/decode/element.rs:47-56 | an entry is a key string then an element |
| NibbleDecode.DecodeStructEntry | src/decode/element.rs:47-56 | result and position as `StructEntryAt` |
| NibbleDecodeSpec.StructItemsAt | src/decode/element.rs:47-56 | the entries stay inside the data |
| NibbleDecode.DecodeStructItems | src/decode/element.rs:47-56 | the loop's result and position are `StructItemsAt`'s |
| NibbleDecodeSpec.StructItemsStep | src/decode/element.rs:47-56 | one parsed entry is inserted into the map and the loop goes on with one fewer |
| NibbleDecodeSpec.StructItemsStop | src/decode/element.rs:47-56 | a failed entry fails the struct with its error |
| NibbleDecodeSpec.MapEntryAt | src/decode/element.rs:71-78 | a parsed map entry's key is hashable |
| NibbleDecode.DecodeMapEntry | src/decode/element.rs:71-78 | result and position as `MapEntryAt` |
| NibbleDecodeSpec.MapItemsAt | src/decode/element.rs:71-78 | the entries stay inside the data |
| NibbleDecode.DecodeMapItems | src/decode/element.rs:71-78 | the loop's result and position are `MapItemsAt`'s |
| NibbleDecodeSpec.MapItemsStep | src/decode/element.rs:71-78 | one parsed entry is inserted and the loop goes on |
| NibbleDecodeSpec.MapItemsStop | src/decode/element.rs:71-78 | a failed entry fails the map |
| NibbleDecodeSpec.ListItemsAt | src/decode/element.rs:89-96 | the items stay inside the data |
| NibbleDecode.DecodeListItems | src/decode/element.rs:89-96 | the loop's result and position are `ListItemsAt`'s |
| NibbleElementLemmas.ValueArmTagAlwaysValid | src/decode/element.rs:30-31 | the value arm never reports InvalidValueIdent, because every nibble parses |
| NibbleElementLemmas.OptionOperand | src/decode/element.rs:34-38 | operand 0 is None, 1 is Some of the next element, and anything else is InvalidElementOperand |
| NibbleElementLemmas.ContainerNilCheckDead | src/decode/element.rs:63 | map and list arms read a length first, fail at the end of data, and accept NIL's code |
| NibbleElementLemmas.ValueElementRoundTrip | src/decode/element.rs:30-32 | a value element's prefix and body decode to that element |
| NibbleElementLemmas.HelloWorldElementBytes | src/lib.rs:185 | the documented decode input |
| NibbleElementLemmas.HelloWorldLayout | src/lib.rs:173 | that input is the prefix and body of the string value "Hello World" |
| NibbleElementLemmas.HelloWorldDecodes | src/lib.rs:185 | it decodes to `Value::String("Hello World")` |
| NibbleElementLemmas.StructExampleBytes | src/lib.rs:208 | the documented struct bytes |
| NibbleElementLemmas.StructExampleEntries | src/lib.rs:208-218 | its three entries are bar = 42u8, foo = "Hello World" and baz = true, at their offsets |
| NibbleElementLemmas.StructExampleDecodes | src/lib.rs:208-218 | it decodes to the struct with those three fields |
| NibbleElementLemmas.StructWithCount | src/decode/element.rs:47-55 | a struct prefix and a one-byte count n below 63 decode to the map of the n entries that follow |
| NibbleElementLemmas.DuplicateKeysEntries | src/decode/element.rs:53 | two entries with the same key are both read |
| NibbleElementLemmas.StructDuplicateKeyOverwrites | src/decode/element.rs:53 | the later entry wins |
| NibbleElementLemmas.ListWithCount | src/decode/element.rs:85-96 | a list prefix with a value type and a one-byte count n below 63 decodes to the n bare values that follow |
| NibbleElementLemmas.ListByteStep | src/decode/element.rs:92-95 | a u8 list item is one bare byte |
| NibbleElementLemmas.ListItemsAreBare | src/decode/element.rs:92-95 | [0x71, 2, 5, 7] is the list [5u8, 7u8] |
| NibbleElementLemmas.VariantNameLengthPrefixed | src/decode/element.rs:58 | a variant's name is read as a length-prefixed string |
| NibbleSer.Optimise | src/ser/seq.rs:32-44 | once the flags are not "same" they stay; otherwise the first prefix is remembered, "same" holds while prefixes agree, and "values" holds while all items are values |
| NibbleSer.FlagsMeaning | src/ser/seq.rs:32-44 | after a sequence, "same" holds if and only if every item has the first item's prefix, and "values" if and only if all items are values |
| NibbleSer.FlagsFrozen | src/ser/seq.rs:33 | once the prefixes differ, further items change nothing |
| NibbleSer.Payloads | src/ser/seq.rs:50-52 | the payloads are at most the items |
| NibbleSer.PayloadsOfValues | src/ser/seq.rs:50-52 | for an all-values sequence the payloads are exactly the items' values, in order |
| NibbleSer.ShapeList | src/ser/seq.rs:46-54 | a sequence becomes a typed list only when it is non-empty, all values and of one prefix, and the list holds exactly those values |
| NibbleSer.SeqSerializer.constructor | src/ser/seq.rs:16-23 | empty, with no type and both flags set |
| NibbleSer.SeqSerializer.OptimiseValue | src/ser/seq.rs:32-44 | the flags move as `Optimise` says and the items are unchanged |
| NibbleSer.SeqSerializer.Insert | src/ser/seq.rs:25-30 | the item is appended and the flags stay those of the whole sequence |
| NibbleSer.SeqSerializer.Finish | src/ser/seq.rs:46-54 | the shape chosen for the collected items |
| NibbleSer.VariantSeqSerializer.constructor | src/ser/seq.rs:106-111 | a fresh, empty inner sequence serializer, with the name |
| NibbleSer.VariantSeqSerializer.Insert | src/ser/seq.rs:113-115 | the item is appended to the inner sequence |
| NibbleSer.VariantSeqSerializer.Finish | src/ser/seq.rs:117-119 | the variant of the name and the inner sequence's shape |
| NibbleSer.MapSerializer.constructor | src/ser/map.rs:19-21 | no key type, no last key, no entries |
| NibbleSer.MapSerializer.InsertKey | src/ser/map.rs:23-55 | a non-value key is refused with nothing changed; the first key fixes the key type even when it is then refused as unhashable; a key of another type is a mismatch with nothing changed; a matching key becomes the pending key |
| NibbleSer.MapSerializer.InsertValue | src/ser/map.rs:57-66 | with no pending key, NoKeyGiven; otherwise the entry is inserted under the pending key, or hashing panics for a float |
| NibbleSer.MapSerializer.Finish | src/ser/map.rs:68-70 | the map of the entries, whose keys are all hashable and of the key type |
| NibbleSer.FloatKeyAfterRefusal | src/ser/map.rs:28-62 | an unhashable first key is refused, but a second float key is then accepted and inserting its value panics |
| TychoIdent.LengthCode | src/write/number.rs:9-14 | the width code is at most 5 |
| TychoIdent.NumberCodeFlags | src/write/number.rs:18-33 | a number ident's byte is its width code, plus 0x10 when signed and 0x20 when float |
| TychoIdent.ParseNumber | src/read/number.rs:14-32 | a parsed number ident is the one whose byte was read |
| TychoIdent.ParseNumberCode | src/read/number.rs:14-32 | parse inverts the number ident byte |
| TychoIdent.NumberCodeInjective | src/write/number.rs:18-33 | distinct number idents have distinct bytes |
| TychoIdent.ParseNumberDomain | src/read/number.rs:14-32 | exactly the 13 bytes the writer can produce parse |
| TychoIdent.ValueIdentBytes | src/write/value.rs:10-23 | one byte, or two for a number; the first is at most 6, and 4 exactly for numbers |
| TychoIdent.ParseValueTag | src/read/value.rs:12-22 | a first byte parses exactly when it is at most 6 and not 4, and gives the ident written as that byte |
| TychoIdent.ValueIdentBytesInjective | src/write/value.rs:10-23 | distinct value idents are written differently |
| TychoIdent.ParseElementTag | src/read/element.rs:9-27 | the tags 0 to 8 and 0xF0 parse, to the element ident written as that byte |
| TychoIdent.ParseElementTagOfTag | src/read/element.rs:9-27 | parse inverts the element tag |
| TychoIdent.InternalPrefix | src/into/internal.rs:5-29 | numbers map into 0xF0 to 0xFC, and the others to their value tag |
| TychoIdent.FromInternalPrefix | src/into/internal.rs:31-54 | a decoded prefix is the ident that encodes to it |
| TychoIdent.FromInternalPrefixOfPrefix | src/into/internal.rs:5-54 | `from_internal_prefix` inverts `to_internal_prefix` |
| TychoIdent.InternalPrefixInjective | src/into/internal.rs:5-29 | distinct idents get distinct prefixes |
| TychoIdent.FromInternalPrefixUnused | src/into/internal.rs:52 | a byte no ident encodes to decodes to None |
| TychoIdent.UnusedPrefixes | src/into/internal.rs:52 | 0x04 and 0xFD decode to None |
| TychoValues.ElementIdentDistinct | src/into/ident.rs:11-26 | two elements with the same ident are the same kind, Some and None included |
| TychoValues.SampleValue | src/into/ident.rs:32-42 | every value ident is the ident of some value |
| TychoValues.Compress | src/into/compression.rs:45-47 | compressing wraps the element |
| TychoValues.ImplDecompress | src/into/compression.rs:51-57 | an element is unwrapped exactly when it is a compression; otherwise it comes back with an Other error |
| TychoValues.Decompress | src/into/compression.rs:18-23 | Ok with the inner element exactly for a compression, otherwise the source's Other message |
| TychoValues.DecompressLossy | src/into/compression.rs:27-32 | the inner element, or the element itself when it is not a compression |
| TychoValues.DecompressOpt | src/into/compression.rs:36-41 | Some of the inner element exactly when `decompress` succeeds |
| TychoValues.DecompressCompress | src/into/compression.rs:18-57 | all three decompressions invert `compress` |
| TychoValues.DecompressLossyIdentity | src/into/compression.rs:27-55 | on a non-compression, the lossy form is the identity and the optional form None |
| TychoInput.ByteAt | src/read/func.rs:5-7 | a byte is read exactly when one remains; otherwise Io |
| TychoInput.BytesAt | src/read/func.rs:9-15 | n bytes are read exactly when n remain, giving that slice; otherwise Io |
| TychoInput.ByteAtByte | src/read/func.rs:5-7 | the byte at the position is what is read |
| TychoInput.Input.constructor | src/read/func.rs:5-15 | a stream at position 0 over the bytes |
| TychoInput.ReadByte | src/read/func.rs:5-7 | result and position as `ByteAt`; unchanged on error |
| TychoInput.ReadBytes | src/read/func.rs:9-15 | result and position as `BytesAt`; a short read leaves the stream at its end |
| TychoFormat.Leb128Shape | src/write/length.rs:13-17 | every byte but the last has the continuation bit, and the last does not |
| TychoFormat.Leb128Groups | src/write/length.rs:9-11 | byte i carries bits 7i to 7i+6 of the number |
| TychoFormat.Leb128Length | src/write/length.rs:6-18 | the encoding is the shortest that holds the number |
| TychoFormat.NumberWidth | src/write/number.rs:43-54 | a number body is 1, 2, 4, 8 or 16 bytes |
| TychoFormat.NumberBytesWidth | src/write/number.rs:43-54 | the body is exactly its ident's width |
| TychoFormat.ElementBytesTag | src/write/element.rs:13-76 | every element's bytes start with its tag |
| TychoFormat.Listing | src/write/element.rs:34 | a listing of a set names each member exactly once, as a HashMap's `for` loop visits each entry once |
| TychoFormat.SomeOrders | src/write/element.rs:34-37 | an order listing every possible key set exists, so the round trips quantified over valid orders are not vacuous |
| TychoElementLemmas.ElementBytesAfterTag | src/write/element.rs:14-81 | after the tag come, per kind: the value ident and value; the inner element; the name then the inner element; a framed struct, list or compression body; the array or map tail |
| TychoWrite.Writer.constructor | src/write/func.rs:8-26 | an empty buffer |
| TychoWrite.WriteByte | src/write/func.rs:8-13 | appends the byte |
| TychoWrite.WriteBytes | src/write/func.rs:15-20 | appends the bytes |
| TychoWrite.WriteLength | src/write/length.rs:6-19 | appends the LEB128 of the length |
| TychoWrite.WriteBuffer | src/write/func.rs:22-26 | appends the length and then the bytes |
| TychoWrite.WriteString | src/write/string.rs:6-11 | appends the framed UTF-8 bytes |
| TychoWrite.WriteTString | src/write/string.rs:13-16 | appends the UTF-8 bytes and a zero |
| TychoWrite.WriteChar | src/write/string.rs:18-20 | appends the char's UTF-8 bytes, unframed |
| TychoWrite.WriteNumberIdent | src/write/number.rs:18-35 | appends the number ident byte |
| TychoWrite.WriteNumber | src/write/number.rs:37-56 | appends the big-endian or two's-complement body |
| TychoWrite.WriteValueIdent | src/write/value.rs:10-23 | appends the value ident bytes |
| TychoWrite.WriteValue | src/write/value.rs:25-40 | appends the value body |
| TychoWrite.WriteElement | src/write/element.rs:11-83 | appends `ElementBytes` for the element, in the given HashMap iteration order |
| TychoWrite.WriteOpt | src/write/element.rs:19-25 | the option arm appends the same |
| TychoWrite.WriteValueElement | src/write/element.rs:14-18 | the value arm appends the same |
| TychoWrite.WriteVariant | src/write/element.rs:26-30 | the variant arm appends the same |
| TychoWrite.WriteStruct | src/write/element.rs:31-39 | the struct arm appends the same |
| TychoWrite.StructBuffer | src/write/element.rs:31-39 | the scratch buffer holds the fields in iteration order |
| TychoWrite.WriteField | src/write/element.rs:34-37 | appends the key as a term string, then the element |
| TychoWrite.WriteList | src/write/element.rs:40-47 | the list arm appends the same |
| TychoWrite.ListBuffer | src/write/element.rs:40-47 | the scratch buffer holds the items in order |
| TychoWrite.WriteArray | src/write/element.rs:48-60 | the array arm appends the same; a Null type or no items writes Null and nothing more |
| TychoWrite.ValuesBuffer | src/write/element.rs:53-58 | the scratch buffer holds the bare values in order |
| TychoWrite.WriteMap | src/write/element.rs:61-74 | the map arm appends the same |
| TychoWrite.MapBuffer | src/write/element.rs:61-74 | the scratch buffer holds the entries in iteration order |
| TychoWrite.WriteEntry | src/write/element.rs:67-70 | appends the bare key value, then the element |
| TychoWrite.WriteCompression | src/write/element.rs:75-81 | the compression arm appends the same |
| TychoWrite.CompressionBuffer | src/write/element.rs:75-81 | the scratch buffer holds the inner element's bytes |
| TychoReadSpec.Group | src/read/length.rs:13 | a group is the low 7 bits shifted by 7 per byte |
| TychoReadSpec.LengthAt | src/read/length.rs:6-21 | a parsed length consumes at least one byte |
| TychoRead.ReadLength | src/read/length.rs:6-21 | result and position as `LengthAt` |
| TychoLemmas.LengthAtLeb128 | src/read/length.rs:10-18 | reading a LEB128 encoding adds its number at the current shift |
| TychoLemmas.LengthRoundTrip | src/read/length.rs:10-18 | every u64 length reads back as written, consuming its encoding |
| TychoLemmas.LengthEarlyEnd | src/read/length.rs:11 | running out of bytes mid-length is Io |
| TychoLemmas.LengthOverflow | src/read/length.rs:13 | ten continuation bytes make the eleventh shift overflow, which panics |
| TychoLemmas.LengthBound | src/read/length.rs:7-13 | an accumulating read stays below 2^64 |
| TychoLemmas.LengthFits | src/read/length.rs:7-13 | every parsed length fits u64 |
| TychoLemmas.Leb128Vectors | src/write/length.rs:6-18 | encodings of 0, 1, 2, 127, 128, 255, 2097151 and 2^31-1 |
| TychoLemmas.LengthReadVectors | src/read/length.rs:10-18 | those encodings read back, and the non-minimal [0x80, 0] reads as 0 |
| TychoReadSpec.FramedAt | src/read/element.rs:45-47 | a framed buffer consumes its length and its bytes |
| TychoRead.ReadFramed | src/read/element.rs:45-47 | result and position as `FramedAt` |
| TychoLemmas.FramedRoundTrip | src/read/element.rs:45-47 | a framed buffer reads back as written |
| TychoReadSpec.StringAt | src/read/string.rs:6-12 | a parsed string consumes at least its length |
| TychoRead.ReadString | src/read/string.rs:6-12 | result and position as `StringAt` |
| TychoLemmas.StringRoundTrip | src/read/string.rs:6-12 | a written string reads back, consuming its bytes |
| TychoLemmas.StringInvalid | src/read/string.rs:8-11 | framed invalid UTF-8 is StringError |
| TychoReadSpec.TBytesAt | src/read/string.rs:14-27 | the scan consumes at least the terminator |
| TychoReadSpec.TStringAt | src/read/string.rs:14-27 | a parsed term string consumes at least its terminator |
| TychoRead.ReadTString | src/read/string.rs:14-27 | result and position as `TStringAt` |
| TychoLemmas.TBytesUntilZero | src/read/string.rs:14-27 | NUL-free bytes and a zero give those bytes |
| TychoLemmas.TBytesUnterminated | src/read/string.rs:17 | no zero before the end is Io |
| TychoLemmas.TStringRoundTrip | src/read/string.rs:14-27 | a NUL-free string written as a term string reads back |
| TychoReadSpec.ExtraCount | src/read/string.rs:36-42 | the count of bytes read after a lead byte is at most 6 |
| TychoReadSpec.CharAt | src/read/string.rs:29-52 | a parsed char consumes at least one byte |
| TychoRead.ReadChar | src/read/string.rs:29-52 | result and position as `CharAt` |
| TychoLemmas.CharAscii | src/read/string.rs:33-34 | an ASCII char reads back as written |
| TychoLemmas.ExtraCountOfLead | src/read/string.rs:36-42 | for a written non-ASCII char the count is its full UTF-8 width, not the width minus one |
| TychoLemmas.CharOverReadAtEnd | src/read/string.rs:36-44 | a non-ASCII char at the end of the data is Io |
| TychoLemmas.CharOverReadInside | src/read/string.rs:36-44 | followed by more data, it reads bytes without the lead and is StringError |
| TychoLemmas.RocketBody | src/read/string.rs:44 | the four bytes of U+1F680 alone read as Io |
| TychoLemmas.CharHighLead | src/read/string.rs:42-49 | a lead of 0xFE or 0xFF reads nothing and panics on the empty string |
| TychoReadSpec.NumberIdentAt | src/read/number.rs:10-12 | the ident is one byte |
| TychoRead.ReadNumberIdent | src/read/number.rs:10-12 | result and position as `NumberIdentAt` |
| TychoLemmas.NumberIdentInvalid | src/read/number.rs:30 | any other byte is InvalidIdent "number ident" |
| TychoReadSpec.UnsignedAt | src/read/number.rs:37-48 | w bytes, below 256^w |
| TychoReadSpec.SignedAt | src/read/number.rs:37-48 | w bytes, in the signed range |
| TychoRead.ReadUnsigned | src/read/number.rs:37-48 | result and position as `UnsignedAt` |
| TychoRead.ReadSigned | src/read/number.rs:37-48 | result and position as `SignedAt` |
| TychoLemmas.UnsignedRoundTrip | src/read/number.rs:37-46 | big-endian bytes of x read as x |
| TychoLemmas.SignedRoundTrip | src/read/number.rs:37-46 | two's-complement bytes of x read as x |
| TychoReadSpec.NumberAt | src/read/number.rs:34-50 | the number read has the requested ident |
| TychoRead.ReadNumber | src/read/number.rs:34-50 | result and position as `NumberAt` |
| TychoLemmas.ReadBack | src/read/number.rs:34-50 | what a number reads back as: itself, except a bit, which is inverted |
| TychoLemmas.NumberRoundTrip | src/read/number.rs:34-50 | a written number reads as `ReadBack` of it, consuming its bytes |
| TychoLemmas.UnsignedNumberRoundTrip | src/read/number.rs:34-50 | the same for bits, unsigned numbers and floats |
| TychoLemmas.SignedNumberRoundTrip | src/read/number.rs:34-50 | the same for signed numbers |
| TychoLemmas.NumberEarlyEnd | src/read/number.rs:37-48 | fewer bytes than the width is Io |
| TychoLemmas.BitValueInverted | src/read/number.rs:36 | a written bit value reads back as its negation |
| TychoReadSpec.ValueIdentAt | src/read/value.rs:9-23 | a value ident consumes at least one byte |
| TychoRead.ReadValueIdent | src/read/value.rs:9-23 | result and position as `ValueIdentAt` |
| TychoLemmas.ValueIdentRoundTrip | src/read/value.rs:9-23 | written value ident bytes read back |
| TychoLemmas.ValueIdentInvalid | src/read/value.rs:21 | a first byte of 7 or more is InvalidIdent "value ident" |
| TychoReadSpec.ValueAt | src/read/value.rs:25-46 | the value has the requested ident, and every ident but Null consumes at least one byte |
| TychoRead.ReadValue | src/read/value.rs:25-46 | result and position as `ValueAt` |
| TychoLemmas.ValueRoundTrip | src/read/value.rs:25-46 | every readable value (no bit, no non-ASCII char, lengths within u64) reads back |
| TychoLemmas.BooleanBody | src/read/value.rs:28 | a boolean is true exactly for the byte 1, and any other byte reads as false |
| TychoReadSpec.ElementIdentAt | src/read/element.rs:9-27 | the tag is one byte |
| TychoRead.ReadElementIdent | src/read/element.rs:9-27 | result and position as `ElementIdentAt` |
| TychoReadSpec.ElementAt | src/read/element.rs:29-118 | an element consumes at least its tag |
| TychoRead.ReadElement | src/read/element.rs:29-118 | result and position as `ElementAt` |
| TychoElementLemmas.ElementAtArm | src/read/element.rs:32-117 | each tag dispatches to its arm, just after the tag |
| TychoReadSpec.ValueElementAt | src/read/element.rs:34-37 | the value arm consumes at least one byte |
| TychoReadSpec.SomeAt | src/read/element.rs:38 | the Some arm consumes at least the inner tag |
| TychoReadSpec.VariantAt | src/read/element.rs:40-43 | the variant arm consumes at least the name's terminator |
| TychoReadSpec.StructAt | src/read/element.rs:44-59 | the struct consumes its framed body |
| TychoRead.ReadStruct | src/read/element.rs:44-59 | result and position as `StructAt` |
| TychoReadSpec.StructItemsAt | src/read/element.rs:49-56 | a parsed body is read to its end |
| TychoRead.ReadStructItems | src/read/element.rs:49-56 | the loop over the buffer returns what `StructItemsAt` gives |
| TychoReadSpec.ListAt | src/read/element.rs:60-71 | the list consumes its framed body |
| TychoRead.ReadList | src/read/element.rs:60-71 | result and position as `ListAt` |
| TychoReadSpec.ListItemsAt | src/read/element.rs:65-68 | a parsed body is read to its end |
| TychoRead.ReadListItems | src/read/element.rs:65-68 | the loop returns what `ListItemsAt` gives |
| TychoReadSpec.ArrayAt | src/read/element.rs:72-89 | the array consumes its type and, unless Null, its framed body |
| TychoRead.ReadArray | src/read/element.rs:72-89 | result and position as `ArrayAt` |
| TychoReadSpec.ArrayItemsAt | src/read/element.rs:82-85 | a parsed body is read to its end |
| TychoRead.ReadArrayItems | src/read/element.rs:82-85 | the loop returns what `ArrayItemsAt` gives |
| TychoReadSpec.MapAt | src/read/element.rs:90-111 | the map consumes its key type and, unless Null, its framed body |
| TychoRead.ReadMap | src/read/element.rs:90-111 | result and position as `MapAt` |
| TychoReadSpec.MapItemsAt | src/read/element.rs:100-107 | a parsed body is read to its end |
| TychoRead.ReadMapItems | src/read/element.rs:100-107 | the loop returns what `MapItemsAt` gives |
| TychoReadSpec.CompressionAt | src/read/element.rs:112-116 | the compression consumes its framed body |
| TychoRead.ReadCompression | src/read/element.rs:112-116 | result and position as `CompressionAt` |
| TychoElementLemmas.FieldsOf | src/write/element.rs:34 | the fields named by an iteration order, with their elements |
| TychoElementLemmas.EntriesOf | src/write/element.rs:67 | the entries named by an iteration order |
| TychoElementLemmas.FieldsComplete | src/write/element.rs:34 | a valid iteration order names every field |
| TychoElementLemmas.EntriesComplete | src/write/element.rs:67 | a valid iteration order names every entry |
| TychoElementLemmas.ItemsStop | src/read/element.rs:49-107 | every item loop stops at the end of its buffer with what it has |
| TychoElementLemmas.StructItemsStep | src/read/element.rs:51-55 | one key and one element extend the struct map |
| TychoElementLemmas.ListItemsStep | src/read/element.rs:65-68 | one element extends the list |
| TychoElementLemmas.ArrayItemsStep | src/read/element.rs:82-85 | one value extends the array |
| TychoElementLemmas.MapItemsStep | src/read/element.rs:100-107 | one key value and one element extend the map |
| TychoElementLemmas.ElementTagRead | src/read/element.rs:9-27 | the written tag reads as the element's ident |
| TychoElementLemmas.ElementRoundTrip | src/read/element.rs:29-118 | every writable element (NUL-free names and keys, readable values, Null type exactly for the empty containers), written in any valid iteration order, reads back as itself, consuming exactly its bytes |
| TychoElementLemmas.OptRoundTrip | src/read/element.rs:38-39 | options round-trip |
| TychoElementLemmas.VariantRoundTrip | src/read/element.rs:40-43 | variants round-trip |
| TychoElementLemmas.VariantTailRoundTrip | src/read/element.rs:40-43 | a name and an element after the tag read back as the variant |
| TychoElementLemmas.CompressionRoundTrip | src/read/element.rs:112-116 | compressions round-trip |
| TychoElementLemmas.ValueElementRoundTrip | src/read/element.rs:34-37 | value elements round-trip |
| TychoElementLemmas.ValueElementTailRoundTrip | src/read/element.rs:34-37 | the value ident and body after the tag read back |
| TychoElementLemmas.StructRoundTrip | src/read/element.rs:44-59 | structs round-trip |
| TychoElementLemmas.StructBodyRoundTrip | src/read/element.rs:49-56 | the fields written in iteration order read back as the whole field map |
| TychoElementLemmas.StructItemsRoundTrip | src/read/element.rs:49-56 | any suffix of the fields reads back onto the accumulated map |
| TychoElementLemmas.ListRoundTrip | src/read/element.rs:60-71 | lists round-trip |
| TychoVectors.ShortStringElement | src/write/string.rs:6-11 | a value string of UTF-8 byte length below 128 is written as tags, the one-byte length and the bytes |
| TychoVectors.HelloBytes | src/tests/encode.rs:27-28 | the UTF-8 bytes of "Hello World!" are its ASCII codes |
| TychoVectors.GamersBytes | src/tests/encode.rs:34-36 | the UTF-8 bytes of the emoji string are the 24 bytes that `encode_string_emoji` lists after the length |
| TychoVectors.BooleanVectors | src/tests/encode.rs:4-12 | `false` is written as [1, 1, 0] and `true` as [1, 1, 1] |
| TychoVectors.CharVectors | src/tests/encode.rs:14-22 | 'A' is written as [1, 3, 65] and the rocket emoji as [1, 3, 240, 159, 154, 128] |
| TychoVectors.AsciiStringVector | src/tests/encode.rs:24-29 | "Hello World!" is written as [1, 2, 12] and its twelve ASCII codes |
| TychoVectors.Utf8StringVector | src/tests/encode.rs:31-37 | the 18-character emoji string is written as [1, 2, 24] and its 24 UTF-8 bytes |
| TychoVectors.UuidBytes | src/tests/encode.rs:41-44 | the sixteen big-endian bytes of 13c5ded9-50af-4cf7-81e1-5e1f57a58b4c are those of the test |
| TychoVectors.UuidVector | src/tests/encode.rs:39-46 | that uuid is written as [1, 6] and its sixteen bytes |
| TychoVectors.BytesVector | src/tests/encode.rs:48-54 | the bytes [10, 20, 30, 40, 50] are written as [1, 5, 5, 10, 20, 30, 40, 50] |
| TychoVectors.U8EncodeVectors | src/tests/numbers.rs:27-29 | u8 0, 255 and 69 are written as [1, 4, 1, n] |
| TychoVectors.U8DecodeVectors | src/tests/numbers.rs:13-21 | [1, 4, 1, n] reads back as the u8 n for 0, 255 and 69, ending after the fourth byte |
| TychoElementLemmas.ListItemsRoundTrip | src/read/element.rs:65-68 | the items from i on read back, appended in order |
| TychoElementLemmas.ArrayRoundTrip | src/read/element.rs:72-89 | arrays round-trip, the empty ones as Null arrays |
| TychoElementLemmas.ArrayTailRoundTrip | src/read/element.rs:72-89 | the type and body after the tag read back |
| TychoElementLemmas.ArrayFramedRoundTrip | src/read/element.rs:78-87 | a framed body of values of one type reads as that array |
| TychoElementLemmas.ArrayItemsRoundTrip | src/read/element.rs:82-85 | the values read back, appended in order |
| TychoElementLemmas.MapRoundTrip | src/read/element.rs:90-111 | maps round-trip |
| TychoElementLemmas.MapTailRoundTrip | src/read/element.rs:90-111 | the key type and body after the tag read back |
| TychoElementLemmas.MapBodyRoundTrip | src/read/element.rs:100-107 | the entries written in iteration order read back as the whole map |
| TychoElementLemmas.MapItemsRoundTrip | src/read/element.rs:100-107 | any suffix of the entries reads back onto the accumulated map |
| PartialStream.AsI64 | src/partial/reader.rs:41 | the u64-to-i64 cast: negative exactly from 2^63 on, and equal modulo 2^64 |
| PartialStream.WrappingAdd | src/partial/reader.rs:72 | the u64 sum modulo 2^64 |
| PartialStream.ReadPos | src/partial/reader.rs:69-75 | where the next read starts: the stream position, or the end when past it |
| PartialStream.Delivered | src/partial/reader.rs:69-75 | after reading up to q, the stream is at q, and the pointer moved by the bytes read |
| PartialStream.Through | src/partial/reader.rs:69-75 | a read through the partial reader succeeds exactly when the plain read does |
| PartialStream.JumpFrom | src/partial/reader.rs:40-44 | a successful jump sets the pointer to the target |
| PartialStream.JumpTracks | src/partial/reader.rs:40-44 | a jump keeps the pointer tracking the stream position, relative to where the reader started, modulo 2^64 |
| PartialStream.JumpLands | src/partial/reader.rs:40-44 | within i64 range the jump lands at start + target exactly |
| PartialStream.DeliveredTracks | src/partial/reader.rs:69-75 | reading keeps the pointer tracking the position |
| PartialStream.PartialReader.FromVec | src/partial/reader.rs:18-26 | a fresh stream over the bytes, position and pointer 0, with the given ident |
| PartialStream.PartialReader.From | src/partial/reader.rs:30-38 | the given stream, as it is; the pointer is 0 whatever its position |
| PartialStream.PartialReader.Pointer | src/partial/reader.rs:50-57 | a pointer with the position, size and the reader's ident |
| PartialStream.PartialReader.EmptyPointer | src/partial/reader.rs:59-66 | position and size 0, with the reader's ident |
| PartialStream.PartialReader.Jump | src/partial/reader.rs:40-44 | succeeds exactly when `JumpFrom` does, and then moves there; on failure nothing moves |
| PartialStream.PartialReader.Deliver | src/partial/reader.rs:69-75 | after a read, position and pointer are `Delivered` |
| PartialStream.PartialReader.ReadElementIdent | src/partial/element.rs:28 | reading a tag through the reader gives `ElementIdentAt` at its position, with the pointer moved |
| PartialStream.PartialReader.ReadValueIdent | src/partial/element.rs:33 | the same for `ValueIdentAt` |
| PartialStream.PartialReader.ReadValue | src/partial/element.rs:34 | the same for `ValueAt` |
| PartialStream.PartialReader.ReadTString | src/partial/element.rs:42 | the same for `TStringAt` |
| PartialStream.PartialReader.ReadLength | src/partial/element.rs:49 | the same for `LengthAt`, and the length fits u64 |
| PartialStream.PartialReader.ReadBytes | src/partial/types.rs:93 | the same for `BytesAt` |
| PartialElements.PartialElementAt | src/partial/element.rs:27-90 | a read element leaves the reader inside the data, and a container comes with its pointer and head 0 |
| PartialElements.ElementArmAt | src/partial/element.rs:30-89 | each arm gives a well-formed partial element |
| PartialElements.ValueArmAt | src/partial/element.rs:32-36 | the value arm gives a value |
| PartialElements.VariantArmAt | src/partial/element.rs:41-46 | the variant arm gives a variant |
| PartialElements.HeaderAt | src/partial/element.rs:48-60 | a struct or list header gives a container of that kind with the reader's ident and head 0, and leaves the pointer at the body's size |
| PartialElements.TypedHeaderAt | src/partial/element.rs:62-86 | an array or map header gives its item type; a Null type gives the empty pointer, otherwise the pointer is left at the body's size |
| PartialElements.ReadPartialElement | src/partial/element.rs:27-90 | result and reader state as `PartialElementAt` |
| PartialElements.ReadValueArm | src/partial/element.rs:32-36 | result and state as `ValueArmAt` |
| PartialElements.ReadVariantArm | src/partial/element.rs:41-46 | result and state as `VariantArmAt` |
| PartialElements.ReadHeader | src/partial/element.rs:48-60 | result and state as `HeaderAt` |
| PartialElements.ReadTypedHeader | src/partial/element.rs:62-86 | result and state as `TypedHeaderAt` |
| PartialLemmas.Eager | src/partial/element.rs:31-46 | the partial form of an element without containers |
| PartialLemmas.ElementAtFlat | src/partial/element.rs:31-46 | a flat element read eagerly splits into its tag and the matching arm |
| PartialLemmas.PartialAgrees | src/partial/element.rs:31-46 | wherever the eager reader reads a flat element, the partial reader reads its partial form and ends at the same place |
| PartialLemmas.NoArgAgrees | src/partial/element.rs:31-38 | the same for unit and None |
| PartialLemmas.ValueAgrees | src/partial/element.rs:32-36 | the same for values |
| PartialLemmas.SomeAgrees | src/partial/element.rs:39 | the same for Some, which reads its inner element bare |
| PartialLemmas.VariantAgrees | src/partial/element.rs:41-46 | the same for variants |
| PartialLemmas.PartialReadsFlat | src/partial/element.rs:31-46 | a written flat element is read by the partial reader as its partial form, consuming its bytes |
| PartialLemmas.WrittenReads | src/partial/element.rs:31-46 | the eager reader reads it too |
| PartialLemmas.WrittenAgrees | src/partial/element.rs:31-46 | and the two agree |
| PartialLemmas.ValueArmAgrees | src/partial/element.rs:32-36 | the value arm is the eager value arm |
| PartialLemmas.VariantArmJoin | src/partial/element.rs:41-46 | the variant arm is a name and then a partial element |
| PartialLemmas.HeaderJumps | src/partial/element.rs:48-53 | a struct or list header records the body's position and size, then jumps to the size as an absolute pointer |
| PartialLemmas.TagThen | src/partial/element.rs:28-30 | the element read is the arm of the tag read first |
| PartialLemmas.TagArm | src/partial/element.rs:28-30 | the same, from the tag's position |
| PartialLemmas.TypedHeaderJumps | src/partial/element.rs:62-86 | a typed header records the body after the type and length, then jumps to the size |
| PartialLemmas.StructFramedRead | src/partial/element.rs:48-53 | a struct tag and framed body read as a struct container at the body, leaving the pointer at the size |
| PartialLemmas.ListFramedRead | src/partial/element.rs:55-60 | the same for lists |
| PartialLemmas.ArrayTypedHeaderRead | src/partial/element.rs:62-73 | the same for typed arrays |
| PartialLemmas.ArrayArmJumps | src/partial/element.rs:62-73 | the array arm after its tag |
| PartialLemmas.MapTypedHeaderRead | src/partial/element.rs:75-86 | the same for typed maps |
| PartialLemmas.MapArmJumps | src/partial/element.rs:75-86 | the map arm after its tag |
| PartialLemmas.NullHeaderRead | src/partial/element.rs:65-67 | a Null item or key type gives the empty container, after two bytes |
| PartialLemmas.StructHeaderRead | src/partial/element.rs:48-53 | a written struct reads as a container over its body |
| PartialLemmas.ListHeaderRead | src/partial/element.rs:55-60 | a written list the same |
| PartialLemmas.ArrayHeaderRead | src/partial/element.rs:62-73 | a written non-empty array the same |
| PartialLemmas.MapHeaderRead | src/partial/element.rs:75-86 | a written non-empty map the same |
| PartialLemmas.EmptyArrayRead | src/partial/element.rs:65-67 | a written empty array reads as the empty container, which is finished at once |
| PartialLemmas.EmptyMapRead | src/partial/element.rs:78-80 | a written empty map the same |
| PartialTypes.ItemAt | src/partial/types.rs:19-73 | a struct item is a key and element, a list item an element, a map entry a key of the key type and an element, an array item a value of the type |
| PartialTypes.ReadItem | src/partial/types.rs:19-73 | result and state as `ItemAt` |
| PartialContainerLemmas.KeyThenItem | src/partial/types.rs:23-27 | a struct item is a term-string key, then a partial element |
| PartialContainerLemmas.ListItemRead | src/partial/types.rs:39-41 | a written flat element is read as a list item |
| PartialTypes.CompressionBytesAt | src/partial/types.rs:90-96 | the bytes returned are as many as the pointer's size, and the pointer is restored |
| PartialTypes.CompressionBytes | src/partial/types.rs:90-96 | result and state as `CompressionBytesAt` |
| PartialTypes.CompressionElementAt | src/partial/types.rs:102-108 | the pointer is restored after reading the element |
| PartialTypes.CompressionElement | src/partial/types.rs:102-108 | result and state as `CompressionElementAt` |
| PartialContainerLemmas.CompressionBytesFrom | src/partial/types.rs:90-96 | the bytes are exactly the slice at the compression's position and size |
| PartialContainerLemmas.CompressionPlaces | src/partial/types.rs:92-94 | the jump lands on the body and the jump back succeeds |
| PartialContainerLemmas.CompressionSteps | src/partial/types.rs:91-95 | jump, read size bytes and jump back give that slice at the old pointer |
| PartialContainers.NextItemAt | src/partial/container.rs:32-60 | after a successful item the reader is back at its old pointer, and the head stays in u64 |
| PartialContainers.ReadOnAt | src/partial/container.rs:48-59 | once jumped, a success is an item with the reader back at the old pointer |
| PartialContainerLemmas.OutdatedStays | src/partial/container.rs:33-36 | a pointer from another reader is OutdatedPointer, with nothing moved, and repeats |
| PartialContainerLemmas.FinishedStays | src/partial/container.rs:39-41 | a finished container yields None, with nothing moved, and stays finished |
| PartialContainerLemmas.FirstJumpFails | src/partial/container.rs:47 | a failed jump to the head is returned with nothing changed |
| PartialContainerLemmas.ItemReadFails | src/partial/container.rs:47-50 | a failed item read is returned, the head unchanged and the reader left where it stopped |
| PartialContainerLemmas.ReadOnFails | src/partial/container.rs:50 | the same, after the jump |
| PartialContainerLemmas.JumpToItem | src/partial/container.rs:44-47 | `next_item` jumps to position + head and reads on from there |
| PartialContainerLemmas.ReadOnHead | src/partial/container.rs:50-59 | the head grows by the bytes of the item and the reader returns to the top |
| PartialContainerLemmas.NextItemHead | src/partial/container.rs:44-59 | an item read at position + head moves the head by its length and leaves the reader where it was |
| PartialContainerLemmas.ListNextFlat | src/partial/container.rs:44-59 | a written flat element at the head of a list is the next item, and the head moves past it |
| PartialContainerLemmas.ListItemThere | src/partial/types.rs:39-41 | a written flat element at the head reads as a list item ending just past it |
| PartialContainers.PartialContainer.constructor | src/partial/container.rs:24-26 | a container with the pointer, head and item kind |
| PartialContainers.PartialContainer.Empty | src/partial/container.rs:28-30 | the same with head 0 |
| PartialContainers.PartialContainer.Top | src/partial/container.rs:80-82 | the head goes back to 0 |
| PartialContainers.PartialContainer.NextItem | src/partial/container.rs:32-60 | result, new head and reader state are `NextItemAt`'s; the pointer is unchanged |
| PartialContainers.PartialContainer.IterNext | src/partial/container.rs:123-125 | the item `NextItemAt` gives, or None on an error |
| PartialContainers.Glue | src/partial/container.rs:74-75 | putting items in front of a walk keeps its head and place |
| PartialContainers.GlueTwice | src/partial/container.rs:74-75 | gluing twice is gluing the concatenation |
| PartialContainers.GlueNone | src/partial/container.rs:74-75 | gluing nothing changes nothing |
| PartialContainers.CollectAt | src/partial/container.rs:72-78 | the head stays in u64 and the place is in the data |
| PartialContainers.CollectStep | src/partial/container.rs:74-75 | collecting is one `NextItemAt`, then: stop on an error, end on None, or keep the item and go on |
| PartialContainers.CollectEnds | src/partial/container.rs:74-77 | an error or None after some items ends the walk with them |
| PartialContainers.CollectMore | src/partial/container.rs:74-75 | an item is appended and the walk goes on from the new head |
| PartialContainers.PartialContainer.CollectNext | src/partial/container.rs:74-75 | one turn of the loop keeps the collected items a prefix of the walk |
| PartialContainers.PartialContainer.Collect | src/partial/container.rs:72-78 | result, head and reader state are `CollectAt`'s |
| PartialContainerLemmas.CollectedFinished | src/partial/container.rs:72-78 | a finished collect leaves the head at the size and the container finished |
| PartialVectors.OneFieldHeader | src/partial/element.rs:48-53 | the struct {a: ()} reads as a container at 2 of size 3, and the pointer is left at 3 |
| PartialVectors.OneFieldItem | src/partial/container.rs:32-60 | its next item is a: () and the head becomes 3 |
| PartialVectors.OneFieldCollect | src/partial/container.rs:72-78 | collecting it gives exactly [a: ()] |
| PartialVectors.NestedFails | src/partial/container.rs:44-53 | for [5,5,97,0,6,1,0] the inner size 1 is below the item start 2, so `next_item` gives SubtractOverflowPanic |
| PartialVectors.LoopingList | src/partial/element.rs:55-60 | in [5,7,97,0,6,3,0,0,0] the nested list at 4 is a container at 6 of size 3, leaving the pointer at 3 |
| PartialVectors.LoopingFirst | src/partial/container.rs:44-59 | the first `next_item` of {a: [(), (), ()]} reads field a, but moves the head to 1 instead of 5 |
| PartialVectors.LoopingAgain | src/partial/container.rs:44-59 | at head 1 it reads the field "" with the same list, and the head stays 1 with the reader back at 7 |
| PartialVectors.LoopingStays | src/partial/container.rs:72-78 | from head 1, no number of calls reaches None or an error |
| PartialVectors.LoopingNeverEnds | src/partial/container.rs:72-78 | so `collect` on that struct does not terminate: the walk is unfinished for every bound |
| Uuids.NilIsNil | src/uuid/mod.rs:82-95 | `is_nil` holds for nil and only for it, and nil prints as all zeros with four hyphens |
| Uuids.Slice | src/uuid/mod.rs:76 | 16 bytes whose big-endian value is the number |
| Uuids.FromSlice | src/uuid/mod.rs:175-177 | `slice` inverts `from_slice` |
| Uuids.SliceRoundTrip | src/uuid/mod.rs:175-177 | `from_slice` inverts `slice` |
| Uuids.FromBytes | src/uuid/mod.rs:187-191 | 16 bytes give the uuid with those bytes; any other length is no uuid |
| Uuids.Version | src/uuid/mod.rs:105-107 | the version nibble is below 16 |
| Uuids.V4 | src/uuid/mod.rs:14-19 | version 4, with every bit but the version nibble taken from the random number |
| Uuids.V4Bits | src/uuid/mod.rs:16-18 | the mask and the set keep a u128 with nibble 4 in place |
| Uuids.VariantBits | src/uuid/mod.rs:14-19 | the variant field of RFC 4122 section 4.1.1 is two bits |
| Uuids.V4KeepsVariant | src/uuid/mod.rs:14-19 | `v4` leaves the variant bits random, so it does not set the RFC 4122 variant |
| Uuids.HexDigits | src/uuid/mod.rs:29-31 | w lowercase digits |
| Uuids.HexDigitAt | src/uuid/mod.rs:30 | digit i of the padded hex is the i-th base-16 digit of the number, most significant first |
| Uuids.Hex | src/uuid/mod.rs:29-31 | 32 lowercase hex digits, zero-padded |
| Uuids.VersionDigit | src/uuid/mod.rs:105-107 | hex digit 12 (string position 14) is the version |
| Uuids.StringOf | src/uuid/mod.rs:41-48 | the four inserts give the hyphenated form |
| Uuids.FormattedShape | src/uuid/mod.rs:41-48 | 36 characters, hyphens exactly at 8, 13, 18 and 23, and the hex with them removed |
| Uuids.HyphenPlaces | src/uuid/mod.rs:43-46 | the inserts land at 8, 13, 18 and 23 |
| Uuids.HyphensOut | src/uuid/mod.rs:142 | removing hyphens undoes the inserts |
| Uuids.DigitValue | src/uuid/mod.rs:130 | a digit's value under radix 16 is below 16 |
| Uuids.AccumulateValue | src/uuid/mod.rs:130 | the digit loop of `u128::from_str_radix` succeeds exactly on all digits that fit, with their value |
| Uuids.HexDigitsValue | src/uuid/mod.rs:30 | the padded digits spell the number |
| Uuids.DigitsHex | src/uuid/mod.rs:129-131 | lowercase digits are the padded digits of their value |
| Uuids.HexRoundTrip | src/uuid/mod.rs:129-131 | `from_hex(hex(u)) == Some(u)` |
| Uuids.HexCanonical | src/uuid/mod.rs:129-131 | 32 lowercase digits parse and print back the same |
| Uuids.StringRoundTrip | src/uuid/mod.rs:141-143 | `from_string(string(u)) == Some(u)` |
| Uuids.Kept | src/uuid/mod.rs:157-162 | the filter keeps only lowercase digits |
| Uuids.FromStringLossy | src/uuid/mod.rs:156-165 | the filter loop, the truncation and the parse give `Lossy` |
| Uuids.LossyValue | src/uuid/mod.rs:156-165 | nil when no digit is kept, otherwise the number the first 32 kept digits spell |
| Uuids.LossyOfFormatted | src/uuid/mod.rs:156-165 | the lossy parse inverts `hex` and `string` |
| Uuids.KeptLower | src/uuid/mod.rs:157-162 | lowercase hex passes the filter unchanged |
| Uuids.ExampleVersion | src/uuid/mod.rs:101-107 | the documented uuid has version 4, and the variant bits 0 |
| Uuids.HexDigitsSplit | src/uuid/mod.rs:30 | the w + v padded digits of n are the w digits of n shifted down by v digits, then the lowest v |
| Uuids.HexFromGroups | src/uuid/mod.rs:30 | the 32 padded digits are four groups of eight, highest first |
| Uuids.DocumentedHexForm | src/uuid/mod.rs:21-31 | `hex()` of 62911151285467627956781226334379231326 is "2f543f3c06594e9233b0c8a85c2ac85e" |
| Uuids.HyphenatedGroups | src/uuid/mod.rs:41-48 | the hyphens fall between the groups of 8, 4, 4, 4 and 12 digits |
| Uuids.DocumentedStringForm | src/uuid/mod.rs:33-48 | `string()` of that uuid is "2f543f3c-0659-4e92-33b0-c8a85c2ac85e" |
| Uuids.DocumentedNumeric | src/uuid/mod.rs:50-60 | `from_string` of that string gives the uuid whose `numeric()` is 62911151285467627956781226334379231326 |
| Uuids.DocumentedSlice | src/uuid/mod.rs:62-76 | `bytes()` and `slice()` of that uuid are [47, 84, 63, 60, 6, 89, 78, 146, 51, 176, 200, 168, 92, 42, 200, 94] |
| Utf8.DecodeEncode | src/read/string.rs:8 | `String::from_utf8` of a string's bytes gives the string back |
| Utf8.EncodeDecode | src/read/string.rs:23 | bytes that decode are the encoding of what they decode to |
| Utf8.EncodeAscii | src/read/string.rs:33-34 | an ASCII string is encoded byte for byte, each char as its own code |
| Utf8.EncodeHasNul | src/write/string.rs:13-16 | a string's bytes contain zero exactly when it contains NUL, so only NUL-free strings survive `write_tstring` |

## Left out

- Serde. The `Serialize` and `Deserialize` adapters over the serializers and readers are not modelled. Neither are `marshall`, `public.rs`, or the `lib.rs` wrappers beyond `encode` and `decode`. The serializers take the already-serialized element.
- Async readers and gzip. The async readers (`async_`, `async_tokio`) are not modelled, and gzip compression is not modelled: a compression element holds its inner element uncompressed.
- Floating point. Floats are carried as their IEEE 754 bit patterns and never interpreted. `TychoReadSpec.NumberAt` therefore says nothing about float values beyond their bits.
- Randomness. `rand::random()` becomes a parameter: `Uuid::new` is the datatype constructor applied to it, `v4` is `Uuids.V4(random)`, and the partial reader's ident is an arbitrary u16 given to `FromVec` and `From`.
- `Element::prefix()` is not shown in the modelled files. The sequence serializers take it as a parameter at construction.
- HashMap iteration order. The writer is parameterised by an order for the keys of each struct and map (`TychoFormat.ValidOrders`), and the round trips hold for every such order; `TychoFormat.SomeOrders` shows that one exists. `Orders` fixes one order per key set, so two maps with the same key set are written in the same order. The source's `RandomState` hashing does not promise that.
- I/O failures. Writes into a `Vec` cannot fail, so the writers have no error path. The stream's I/O error becomes `Io`, which stands for running out of data or seeking before the start. After an error the position is left unspecified, except where the source fixes it.
- Panics. Debug-build overflow panics and unwraps of nothing are modelled as error outcomes (`HashPanic`, `ShiftOverflowPanic`, `EmptyCharPanic`, `CompressionTagPanic`, `SubtractOverflowPanic`, `AddOverflowPanic`), so the model can state when they happen. They are not lost.
- `NibbleDecode.ReadVarLength`: the u32 accumulation of class 3 is done on unbounded integers. The model does not wrap it at 2^32.
- `PartialStream.Delivered`: the partial reader's `pointer += size` is modelled wrapping modulo 2^64, not as a debug-build panic.
- Partial iteration. `PartialContainer::next` is `next_item` unchanged and has no member of its own, and `finished` is the comparison `head == size`.
- `PartialContainers.PartialContainer.Collect` takes a `bound` on the number of items. If it reaches the bound it reports the walk as unfinished rather than looping further. The source loops until `next_item` ends.
- `ItemStandard` and `standardise` are left out; `standardise` is commented out in the source. `PartialReader::element` is `read_partial_element` unchanged.
- The `partial_state` feature is modelled as enabled, so pointers carry the reader ident and are checked against it.
- Partial containers nested in partial containers are not read back correctly, because the source jumps to an absolute size. When the inner size is below the item's start, `next_item` fails with `SubtractOverflowPanic`. Otherwise it silently misreads, and it can repeat the same item forever (`PartialVectors.LoopingNeverEnds`). There is therefore no round-trip lemma for nested containers. The item round trips cover struct items through `KeyThenItem` and flat list items through `ListItemRead`.
- `Uuid`'s derived ordering and equality, `Default` (which is `nil`), `Debug` and `Display` (which print `string()`), serde support, the conversions to the `uuid` crate and `Hash` (src/uuid/mod.rs:3, 194-293) are left out. `bytes()` is `slice()` as a vector, and `numeric`/`from_numeric` are the datatype's field and constructor.
- `Uuids.FromBytes`: `copy_from_slice` panics for any length other than 16. The model returns None there.
- `println!` calls in the nibble decoder print and return nothing, and are left out.
