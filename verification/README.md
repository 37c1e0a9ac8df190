# A Dafny model of GLME

GLME encodes integers, doubles, byte vectors, arrays and nested structs into a byte buffer in a
format adapted from Go's `encoding/gob`, and decodes them again. This project models the layers
of the library and proves how they behave.

- **Numbers** (`Words`, `Float64`, `Gobber`, `Bits`, `Wire`): the variable-length unsigned form, the
  signed mapping and byte reversal of doubles (both also as the source's 64-bit masks and shifts), type
  ids, scalars and byte data. `Gobber` also has the array routines that read and write numbers in place.
- **Arrays** (`Arrays`): the element loops and whole arrays, for any element codec.
- **Structs** (`Schema`, `WireFormat`, `Readers`, `RoundTrip`, `Lockstep`, `CutStreams`, `Accepted`,
  `Foreign`, `StructEncoder`, `StructDecoder`, `Documented`): a schema is a map from type ids to lists of fields, so types may refer
  to each other and to themselves; a value is a tree. `EncFields` says what the encoder writes and `DecFields` what
  the decoder does with *any* bytes. `Buffers.Buffer` is the library's buffer object, and the methods
  of `StructEncoder` and `StructDecoder` are the library's calls on it, each proved to do what these
  functions say. `WireFormat` has the format once more, as numbered fields instead of a counter, and
  `Readers` spells out what a reader gets; both are proved to be what these functions make of a struct.
- **The doubly linked list** (`LinkedList`): the list program of `test/t16.c`, with links on the heap
  and the buffer's `user` slot.
- **Framing** (`Framing`): length-prefixed messages on a byte stream, whole runs of them, and a
  struct's way from one process to another.
- **The Python module** (`SelfDescribing`, `GBuffers`): elements that carry their own type codes, and
  the growing buffer object.

## How the model reads the source

- A double is its 64-bit pattern. The comparison of a field with its default is IEEE 754 equality.
- A C `int` return code is exact below 2^31, so a buffer holds less than 2 GiB; the allocator of the
  model refuses more. Otherwise the allocator may refuse anything, unless the buffer's `reliable`
  constant says that it grants everything it may.
- The encode macro of a vector takes any number of bytes and the decode macro fills the reader's array, so
  a vector value is any byte string and the length in a schema is the reader's.
- A C struct cannot contain itself, so the struct types of a schema embed only types of smaller depth;
  through pointers and arrays they may refer to each other and to themselves.
- The array calls take a function pointer. `Arrays` takes any element codec as a function; the methods
  have one loop for numbers and one for structs, whose specifications are instances.
- A struct has fewer than 2^30 fields (the counters are 32-bit `int`s).
- A user's encoder or decoder function is a list of field macros; it is modelled as a loop over a
  schema. An integer target is 64 bits wide, except in `LinkedList`, where it is an `int`.
- The signed and floating-point value decoders return a *positive* code on underflow
  (src/decoder.c:101-105, 180-184), so an element whose bytes are missing passes for decoded. The
  vector decoder narrows a 64-bit length to an `int` before negating it, so it can do the same
  (src/decoder.c:342-346), and the field decoder goes on with an uninitialised type id when that id
  is unfinished (src/decoder.c:434-443). All of this is in the model, and
  `CutStreams` proves that no such struct is ever accepted: it decodes the same whatever follows it,
  and cut anywhere it is refused.
- The scalar value encoders add the negative result of a failed attempt to `count` after growing the
  buffer (src/encoder.c:66-73). The model does so too; they succeed exactly when the number fits.
- The fall-through switches of src/gobber.c:117-141 and 177-194 are written as loops.

Where the repository's description and its code disagree, the model follows the code: ENCODING:167-170
gives 21 for the integer -10 where the code writes 19, and ENCODING:81-82 says that every field with a
zero value is omitted, while embedded structs and non-empty vectors are always sent. ENCODING:115-116 and
172-173 give other codes for integers and strings than src/inc/glme.h:53-57, which the C code uses.

## Model

| member | source | states |
|---|---|---|
| RoundTrip.ReadStruct | src/decoder.c:462-651 | A message and a reader whose types, nested ones included, may each have gained or lost fields at the end: it consumes exactly the message if and only if everything it does not know was omitted, at every level, and fails otherwise; what it gets is spelled out by `GetsAll`: sent values, vectors cut or filled up to its arrays, its defaults for fields the writer does not know, and nothing but zeros inside embedded structs the writer does not know |
| RoundTrip.EvolvedStruct | src/encoder.c:415-488 | A reader with a later schema always succeeds, before any trailing bytes, and gets the same |
| Readers.SeenFieldsAreGot | src/inc/glme.h:1360-1366 | What the decoder makes of a struct, field by field at every depth, with literal zeros, empty arrays and null pointers for what was not sent |
| RoundTrip.DroppedFields | src/decoder.c:476-485 | A reader with an older schema: its field calls succeed if and only if it knows what was sent of its own nested structs, and then the end mark is there if and only if every field it does not know was omitted |
| RoundTrip.StructRoundTrip | src/decoder.c:462-651 | With the writer's own schema the value comes back bit for bit if and only if, at every level, no double and its default are the two patterns of zero and every vector has its array's length; the message is consumed exactly in every case |
| RoundTrip.NegativeZeroIsLost | src/inc/glme.h:1043-1050 | A concrete message that does not come back: -0.0 in a field with default 0.0 |
| RoundTrip.SecondTripIsExact | src/decoder.c:604-651 | What was received under the same or a later schema is a value of that schema; sending it on changes nothing, except when the later schema has a default -0.0, and then exactly when a zero of the other sign was received |
| RoundTrip.NegativeDefaultDrifts | src/inc/glme.h:1360-1366 | A concrete message that the second trip changes: an embedded struct the writer did not know, zero-filled, with default -0.0 |
| RoundTrip.NextOffset | src/encoder.c:421-441 | What the field encoder leaves to be written starts with the end mark if nothing is left to send, else with an offset no smaller than the current distance |
| WireFormat.MessageForm | ENCODING:76-89 | What the encoder writes for a message is its type id and, for each field sent, the difference to the number of the last one (from -1) and the typed value, then a zero: the format as described, with the code of every type as a number |
| WireFormat.DefaultsAreSilent | src/encoder.c:421-432 | A struct with the default in every field and no embedded struct is a zero byte after its type id |
| Schema.OmittedMeans | src/inc/glme.h:1009-1079 | Which values are not sent, kind by kind |
| Float64.IeeeEqualMeans | src/inc/glme.h:1043-1050 | Which doubles equal their default, in bits: the same pattern, not a NaN, or the two zeros |
| Arrays.ArrayRoundTrip | src/encoder.c:337-385 | For any element codec: if it is inverse with exact consumption, array encode, array start and array data give back the type id, the count and all elements in order |
| Arrays.ElementsRead | src/decoder.c:739-760 | For any element codec: if the decoder makes something of the elements it knows and refuses others, the loop makes that of all of them in order, or refuses |
| RoundTrip.ReadRecords | src/decoder.c:739-760 | The instance for struct arrays whose struct type has gained or lost fields |
| RoundTrip.ScalarsRoundTrip | src/decoder.c:739-760 | The instance for numeric arrays, with exact consumption, for any number of elements |
| RoundTrip.ScalarDataLength | src/encoder.c:337-352 | The data of n numeric elements takes between n and 9n bytes |
| Lockstep.StructInStep | src/decoder.c:469-488 | Before every field the decoder's counter is zero or has not passed the next offset; a field is decoded exactly when it was sent, and then its number is the sum of the offsets so far; for readers with more fields or fewer |
| Lockstep.StayInStep | src/encoder.c:440-486 | The same from any field and any distance on, for offsets of any width |
| Lockstep.DecodingTakesBytes | src/decoder.c:476-488 | Exactly the visits that decode take bytes off the stream |
| Accepted.AcceptedIsAValue | src/decoder.c:604-651 | On arbitrary bytes: an accepted message gives a value of the schema with every vector of its array's length, and can be sent on |
| CutStreams.StructLocality | src/decoder.c:462-651 | On arbitrary bytes: what a message decodes to depends on the bytes it consumes and on nothing after them |
| CutStreams.CutMessageRefused | src/decoder.c:97-108 | No proper part of an accepted message is accepted, although single underflows are reported as success |
| CutStreams.JammedFails | src/decoder.c:469-485 | From an unfinished number, or a long one above every counter, no list of fields reaches its end mark |
| CutStreams.LongVectorJams | src/decoder.c:342-346 | A vector whose missing data goes unreported leaves the reader on a number from which no struct can end |
| CutStreams.MessagesArePrefixFree | src/encoder.c:490-514 | No message is a proper part of another |
| Foreign.MessageType | src/decoder.c:604-620 | A message of another type than asked for is refused; type id zero asks for any |
| Foreign.WrongTypeRefused | src/decoder.c:491-502 | A field with another type id than expected is refused, for every kind of field |
| Foreign.WrongArrayRefused | src/decoder.c:505-527 | So is an array with elements of another type, or too many to allocate |
| Foreign.ArrayStartAccepted | src/decoder.c:714-728 | The bytes that start an array, and the type id and length read from them |
| Foreign.EmptyArrayKeepsCounter | src/decoder.c:598-600 | An array sent with length zero is read, but the offset counter does not start anew |
| Foreign.PassedOffset | src/decoder.c:482-488 | A field is read also when the counter has passed its offset |
| Foreign.FieldNotRead | src/decoder.c:469-486 | Before its offset, at the end mark and after it a field gets its default and nothing is read |
| Foreign.LoneNumber | src/decoder.c:543-551 | A lone number for an array: its type id is stepped over and the array is empty |
| Foreign.LoneStruct | src/decoder.c:552-597 | A lone struct for an array is read and dropped |
| Documented.StructExamples | ENCODING:200-219 | The two documented structs, byte for byte |
| Documented.ArrayExample | ENCODING:191-198 | The documented array, byte for byte |
| Documented.VectorExample | ENCODING:182-188 | The documented byte array, byte for byte |
| Documented.NumberExamples | ENCODING:36-40 | The documented numbers, byte for byte |
| StructEncoder.EncodeField | src/encoder.c:415-488 | Appends nothing and counts on just for an integer equal to its default, a double IEEE-equal to it, an empty vector or array, or a null pointer; else appends offset and field and starts counting anew; succeeds whenever the bytes fit |
| StructEncoder.EncodeRecord | src/inc/glme.h:972-1094 | The list of field macros appends exactly the struct's encoding, through recursion and any growth of the buffer |
| StructEncoder.EncodeStruct | src/encoder.c:490-514 | Appends type id and struct, returns their length; succeeds whenever they fit |
| StructDecoder.DecodeField | src/decoder.c:462-601 | On any bytes: the schema's outcome for the field, or a stop at an unfinished number; the read pointer never moves back or past the data |
| StructDecoder.DecodeRecord | src/inc/glme.h:1229-1366 | On any bytes: terminates, and a non-negative code means the schema's decoder accepted exactly the bytes consumed; with a reliable allocator the converse too |
| StructDecoder.DecodeStruct | src/decoder.c:604-651 | The same for a whole message whose type id must be the expected one, or may be any if that is zero |
| StructDecoder.DecodeScalarData | src/decoder.c:739-760 | The numeric element loop into zeroed memory equals the recursive reading of the elements |
| StructDecoder.DecodeEnd | src/decoder.c:696-709 | Accepts exactly a zero byte |
| LinkedList.SendList | test/t16.c:93-127 | A list of any length comes back as fresh, distinct links with the same values in order, bit for bit except that -0.0 becomes 0.0; `next` and `prev` of neighbours lead to each other and end in nulls; `head` and `tail` are the ends, both null when empty |
| LinkedList.DecodeLink | test/t16.c:40-58 | From any bytes that decode: the links are distinct, each `next.prev` leads back, the first one to what the `user` slot held, and the slot ends at the last link |
| LinkedList.DecodeList | test/t16.c:73-91 | The whole list from any bytes that decode, with a null `prev` at the head and the `user` slot cleared |
| LinkedList.EncodeLink | test/t16.c:26-38 | Following the `next` pointers appends exactly the struct encoding of the chain |
| LinkedList.LinkOnTheWire | test/t16.c:26-38 | The bytes of a link: distance, type code and value of the fields that are not zero, then the rest of the chain, then a zero |
| LinkedList.ListOnTheWire | test/t16.c:61-71 | The bytes of a list |
| LinkedList.ChainReturns | test/t16.c:118-121 | The values of the chain that the schema's decoder gives back |
| Gobber.UnsignedRoundTrip | src/gobber.c:73-204 | Decoding inverts encoding for every 64-bit number, before any bytes |
| Gobber.EncodedBytes | ENCODING:37-40 | Below 128 one byte; otherwise the number of base-256 digits, negated, and the digits from the high one, which is not zero |
| Gobber.DecodedNumber | src/gobber.c:158-204 | The number that any bytes start with, digit by digit, or how many bytes are needed; more than eight digits count for zero |
| Gobber.CutEncodingAsksForLength | src/gobber.c:172-174 | A non-empty part of an encoding makes the decoder ask for exactly the whole length |
| Gobber.PrefixFree | src/gobber.c:73-143 | No encoding is a prefix of another |
| Gobber.ReencodingNeverLengthens | src/gobber.c:158-204 | For all accepted bytes, non-minimal forms and count bytes above 8 included, encoding the decoded number takes no more bytes than were read, and as many only if those were already the encoding |
| Gobber.ByteCountsAgree | src/gobber.c:85-107 | The nested search and the bit-scan form agree on every word and give the one n with 256^(n-1) <= v < 256^n |
| Gobber.BitScanBrackets | src/gobber.c:85-92 | The highest set bit brackets the number between powers of two |
| Gobber.EncodeU64 | src/gobber.c:73-143 | The in-place routine writes the encoding and nothing else, or writes nothing and returns minus the length needed |
| Gobber.DecodeU64 | src/gobber.c:158-204 | The in-place routine reads what the specification reads, from any bytes |
| Gobber.ZigzagBijection | src/gobber.c:224-233 | The signed mapping is a bijection between the two 64-bit types, even numbers for the non-negative ones and odd for the negative |
| Bits.SignedMappingIsBitwise | src/gobber.c:224-233 | On every 64-bit pattern the source's complement and shifts compute the signed mapping |
| Bits.UnzigzagBitsInverse | src/gobber.c:293-306 | The bit expressions of the decoder are undone by those of the encoder |
| Gobber.SignedLengthMonotone | src/gobber.c:224-233 | Away from zero, on either side, encoded length never shrinks |
| Gobber.DoubleLength | src/gobber.c:252-257 | A double with k zero low bytes, byte k not zero, takes 9-k bytes unless its reversal is below 128 |
| Gobber.SeventeenTakesThreeBytes | ENCODING:60-64 | 17.0 is FE 31 40 |
| Float64.FlipReverses | src/gobber.c:209-216 | The three mask-and-shift steps are full byte reversal |
| Float64.FloatRoundTrip | src/gobber.c:309-318 | Every 64-bit pattern survives reversal, transfer as a number, and reversal |
| Float64.WordRoundTrips | src/gobber.c:309-318 | Every 64-bit number is what some pattern is sent as |
| Wire.TypeRoundTrip | src/decoder.c:425-432 | Every type id is read back, one byte or more |
| Wire.TypeIsNarrowed | src/decoder.c:425-432 | A type id on the wire is taken modulo 2^32 |
| Wire.ScalarBytes | src/inc/glme.h:53-57 | The bytes of a typed scalar, with its type code as a number; a double's number is spelled by its bytes in reverse |
| Wire.ScalarDecoded | src/decoder.c:97-108 | What the scalar decoders make of any bytes, underflow included |
| Wire.TypeShortcut | src/encoder.c:387-395 | The one-byte shortcut writes what the signed form would |
| Wire.VectorRoundTrip | src/decoder.c:322-354 | A vector comes back byte by byte in a destination of any length, cut or filled up with zeros, and is consumed exactly |
| Wire.BytesRoundTrip | src/encoder.c:264-282 | A length and data read back as the length and the data behind it |
| Wire.CutBytes | src/decoder.c:363-373 | Cut anywhere, the length is unfinished or runs past the data |
| Buffers.Buffer.EncodeBytes | src/encoder.c:264-282 | Appends length and data, keeps all earlier bytes, and grows by exactly what is missing or not at all |
| Buffers.Buffer.DecodeBytes | src/decoder.c:357-390 | Inverts it into new memory; when the data is not all there, the code is minus the need and nothing moves |
| Buffers.Buffer.DecodeBytesInto | src/decoder.c:357-390 | The same into a given destination, byte by byte: the data as far as it fits, and zeros |
| Buffers.Buffer.DecodeVector | src/decoder.c:322-354 | Byte by byte: the data as far as it fits, and zeros; on a missing type, length or data, the code and position the C code leaves and an unchanged destination |
| Buffers.Buffer.EncodeValue | src/encoder.c:61-104 | Succeeds exactly when the number fits, and then appends its encoding |
| Buffers.Buffer.DecodeValue | src/decoder.c:97-108 | The value or, on underflow, the untouched variable with the code's sign as the C code has it |
| Buffers.Buffer.Resize | src/glme.c:108-123 | Only an owned or empty buffer grows, by the amount asked, with contents and read position kept |
| Framing.ReadAll | src/glme.c:139-182 | Reading as many messages as were written, none above a non-zero `maxlen`, through one growing or large enough buffer, gives the same contents in order and leaves what followed |
| Framing.WriteAll | src/glme.c:125-137 | Writing a list of messages appends length and contents of each, in order |
| Framing.Readm | src/glme.c:139-182 | One message becomes the buffer's contents and is taken off the stream; an unfinished length or one above `maxlen` is refused, contents that are not all there are not; the return code leaves out a one-byte length |
| Framing.FirstByteTells | src/glme.c:151-164 | The first byte is the length, or tells how many bytes complete it: one more read suffices |
| Framing.FrameRoundTrip | src/glme.c:125-137 | A framed message is found again in front of any bytes |
| Framing.SendStruct | README.md:97-126 | Encode, write, read and decode with a later schema give the value as its reader sees it |
| SelfDescribing.ElementRoundTrip | cython/glme.pyx:396-443 | Every nested element reads back as itself, wherever it stands, and reading stops at its end |
| SelfDescribing.ElementBytes | cython/glme.pyx:46-51 | The bytes of every kind of element: type codes as numbers, 1 or 0 for a bool, the count, then the items |
| SelfDescribing.ItemsBytes | cython/glme.pyx:419-426 | The items of a list follow one another |
| SelfDescribing.EntriesBytes | cython/glme.pyx:374-386 | The entries of a dictionary follow one another, key before element |
| SelfDescribing.UnsignedElement | cython/glme.pyx:628-629 | An unsigned element is read as the signed number with the same bits |
| SelfDescribing.BooleanElement | cython/glme.pyx:492-497 | Every number but zero is read as true |
| SelfDescribing.EntriesRoundTrip | cython/glme.pyx:719-742 | Dictionary entries with new keys are added in order |
| SelfDescribing.PutNew | cython/glme.pyx:733 | Assigning a new key adds the entry at the end |
| SelfDescribing.PutOld | cython/glme.pyx:733 | Assigning a key that is there replaces its value in place |
| GBuffers.Echo | cython/glme.pyx:441-446 | A sequence encoded into a new buffer and decoded until nothing is left is that sequence |
| GBuffers.GBuffer.EncodeElement | cython/glme.pyx:396-417 | Appends exactly the element's bytes, spelled out kind by kind (2, 1 for True), if there is room to spare, or if it has no byte data and the buffer can grow; never changes earlier data |
| GBuffers.GBuffer.EncodeWords | cython/glme.pyx:121-149 | Any sequence of scalar writes succeeds and the data is the concatenation of the encodings |
| GBuffers.GBuffer.EncodeWord | cython/glme.pyx:121-129 | One retry after growing by 1024 bytes is enough |
| GBuffers.GBuffer.DecodeElement | cython/glme.pyx:623-643 | Reads what the element format says, by recursion over lists and dictionaries |
| GBuffers.GBuffer.DecodeAll | cython/glme.pyx:751-755 | Calling `decode` until it returns None gives the encoded sequence |
| GBuffers.GobEncodeBytes | src/gobber.c:236-249 | Succeeds exactly when there is at least one byte more than needed |

## Left out

- StructEncoder.EncodeRecord: after a negative code the buffer's contents are not described, because the scalar encoders leave `count` in a state no caller uses.
- GBuffers.GBuffer.DecodeElement: asks for input that decodes, because the module's byte reads past the end of the data are not defined.
- GBuffers.GBuffer.EncodeElement: without room to spare only "earlier data is unchanged" is stated; the module then drops byte-data elements of a list without a word.
- Framing.Readm: asks for a length of at most 12 bytes, because the source reads it into 12 bytes, and for contents that the buffer holds or can grow to hold.
- Framing.SendStruct: both processes are in one method; pipes, file descriptors, partial reads and errors of `read` and `write` are not modelled.
- Complex numbers, C strings in structs, fixed-size numeric arrays, single-precision narrowing, and the START_ARRAY macros.
- The calls `glme_decode_array` and `glme_decode_value_array`.
- The handler registry and looking up encoders, decoders and sizes in it; every struct field names its codec.
- Memory release, and allocators that grant 2 GiB or more at once.
- In the Python module: `array.array` values, dictionaries and lists with a common element type on input, unsigned elements on output, and the UTF-8 codec (a string is its bytes).
- Exchange between the Python module and the C library, whose INT and UINT codes are swapped.
