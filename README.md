# yass wire codec, serializer, interceptors and service registry in Dafny

This project models the core of yass, an RPC runtime. It covers four parts:

- **The byte codec.** A growable `Writer` and a bounds-checked `Reader` over a
  byte buffer. They handle single bytes, 4-byte big-endian integers, var-ints
  of at most five bytes, zig-zag var-ints, and UTF-8 text of UTF-16 code units
  (up to U+FFFF).
- **The self-describing serializer.** It handles null, booleans, integers,
  strings, byte blocks, lists, enumeration constants and registered records and
  exceptions. `copy` writes a value and reads it back.
- **Interceptor composition.** `composite`, `DIRECT`, and the parameter-rewriting
  interceptor `i(id)` of the interceptor tests.
- **The `Services` registry** (`Services.java`). `contractId` hands out contract
  ids whose service ids are all different.

The TypeScript implementations of `Writer`, `Reader`, `SERIALIZER` and
`composite` are not part of this model. Their behaviour is modelled from what
`src/test/ts/test.ts` asserts about them. The byte layouts those asserts do not
fix are choices of this model (see "Left out").

The files:

| file | module | what |
|---|---|---|
| `primitives.dfy` | `Primitives` | bytes, 32-bit integers, the `Result` of a read, the `At` predicate (an encoding sits at a position) |
| `codec.dfy` | `Codec` | the byte, int, var-int and zig-zag encodings as functions, with their decoders and round trips |
| `utf8.dfy` | `Utf8` | UTF-8 of each code unit, a decoder that accepts exactly those forms, the round trip and the exact sizes |
| `io.dfy` | `Io` | `Writer` (array buffer that doubles) and `Reader` (cursor over the bytes), proved against `Codec` and `Utf8` |
| `serializer.dfy` | `Serializer` | the wire format of values (`Encode`, `DecodeValue`), what a copy gives back (`Canon`), and the round trip |
| `copy.dfy` | `LocalSerializer` | the serializer's `write`/`read` over `Writer`/`Reader`, `copy` and `compare` |
| `io_test.dfy` | `IoTest` | the I/O scenarios: the 74-byte stream, five continuation bytes, the UTF-8 sizes |
| `contract.dfy` | `Contract` | the test contract (`PriceType`, `Expiration`, `Stock`, `Bond`, `Price`, `UnknownInstrumentsException`) and what `copy` gives back for it |
| `interceptor.dfy` | `Interceptor` | `composite`, `DIRECT`, `i(id)` and `invoke` |
| `services.dfy` | `Services` | the `Services` class and `contractId` |

### Wire format of the serializer

Tags are written as unsigned var-ints:

| tag | value |
|---|---|
| 0 | null |
| 1 | list |
| 2 | true |
| 3 | false |
| 4 | integer |
| 5 | string |
| 6 | byte block |
| 7 and up | the registered types in order |

Payloads:

- An integer is a zig-zag var-int.
- A string is its UTF-8 byte length followed by the bytes.
- A byte block is its length followed by the bytes.
- A list is its element count followed by the elements.
- An enumeration constant is its ordinal.
- A record is a sequence of (field number, value) pairs, one per present field, ended by 0.

A field that is absent or holds null is not written, so it reads back absent.
`Canon(v)` is `v` with every such field made absent. A copy returns `Canon(v)`,
which is `v` itself whenever no field of `v` holds null.

## Model

| member | source | states |
|---|---|---|
| Primitives.SignedUnsignedInverse | src/test/ts/test.ts:64-70 | reinterpreting a 32-bit signed value as unsigned and back gives the value |
| Primitives.ValueOf | src/test/ts/test.ts:82-108 | a read yields a value exactly when the underlying decode succeeds, and then the value decoded; otherwise the same error |
| Primitives.AtAppend | src/test/ts/test.ts:54-104 | two encodings written one after the other sit at consecutive positions, and conversely |
| Codec.ReadByteAt | src/test/ts/test.ts:82-108 | reading a byte succeeds exactly when a byte is left, gives that byte and advances by one; past the end it fails with out-of-data |
| Codec.ReadBytesAt | src/test/ts/test.ts:258-268 | reading n raw bytes succeeds exactly when n bytes are left, gives those bytes and advances by n; otherwise out-of-data |
| Codec.ReadIntAt | src/test/ts/test.ts:84-90 | reading an int succeeds exactly when four bytes are left and advances by four; otherwise out-of-data |
| Codec.EncodeInt | src/test/ts/test.ts:57-63 | `writeInt` takes exactly four bytes for every int; `Codec.IntRoundTrip` and `Codec.IntEncodingOnto` make it a bijection |
| Codec.IntRoundTrip | src/test/ts/test.ts:57-90 | decoding the 4-byte encoding of any int gives the int back |
| Codec.IntEncodingOnto | src/test/ts/test.ts:57-90 | every 4 bytes are the encoding of the int they decode to, so the encoding is a bijection |
| Codec.ReadIntRoundTrip | src/test/ts/test.ts:57-90 | wherever an int's encoding sits in a stream, reading there gives the int and the position after it |
| Codec.VarUnsignedLength | src/test/ts/test.ts:64-70 | the var-int of an unsigned value has one byte per started group of seven bits |
| Codec.EncodeVarInt | src/test/ts/test.ts:64-70 | the bytes of `writeVarInt` carry the continuation bit on every byte but the last and not on the last; `Codec.VarIntRoundTrip` is its inverse |
| Codec.VarIntSize | src/test/ts/test.ts:64-78 | a var-int takes 1 to 5 bytes, a negative one exactly 5, and exactly 1 if and only if the value is in 0..127 |
| Codec.VarIntRoundTrip | src/test/ts/test.ts:64-97 | wherever a var-int's encoding sits in a stream, decoding there gives the value and the position after it |
| Codec.VarIntFailure | src/test/ts/test.ts:110-119 | decoding a var-int fails as malformed exactly when five continuation bytes come first, and with out-of-data exactly when the stream ends before a terminating byte |
| Codec.DecodeVarInt | src/test/ts/test.ts:91-97 | a successful decode consumes between 1 and 5 bytes |
| Codec.EncodeZigZagInt | src/test/ts/test.ts:71-77 | the bytes of `writeZigZagInt` have the same continuation-bit shape as any var-int; `Codec.ZigZagRoundTrip` is its inverse |
| Codec.DecodeZigZagInt | src/test/ts/test.ts:98-104 | `readZigZagInt` consumes 1 to 5 bytes, succeeds exactly when the var-int underneath does, ends where it ends and otherwise fails with its error |
| Codec.ZigZagBijective | src/test/ts/test.ts:71-77 | zig-zag is a bijection between signed and unsigned 32-bit values |
| Codec.ZigZagRoundTrip | src/test/ts/test.ts:71-104 | wherever a zig-zag int's encoding sits in a stream, decoding there gives the value and the position after it |
| Codec.ZigZagSize | src/test/ts/test.ts:71-78 | a zig-zag int takes 1 byte exactly for -64..63; a negative one down to -2^27 is shorter than its plain var-int |
| Utf8.EncodeUnit | src/test/ts/test.ts:130-140 | a code unit takes 1, 2 or 3 bytes by its range, all but the first being continuation bytes |
| Utf8.Encode | src/test/ts/test.ts:121-140 | the UTF-8 of a text is empty only for the empty text and never holds a byte from 0xF0 up; `Utf8.DecodeIff` makes `Utf8.Decode` its inverse |
| Utf8.DecodeUnit | src/test/ts/test.ts:121-140 | decoding one code unit consumes at least one byte and stays inside the block, and fails only as malformed |
| Utf8.Decode | src/test/ts/test.ts:126 | decoding a block fails only as malformed; a block that decodes gives at most one unit per byte and does not start with a continuation byte |
| Utf8.EncodeLength | src/test/ts/test.ts:121-140 | the size of the UTF-8 of a text is the sum of its units' sizes, between one and three bytes per unit |
| Utf8.EncodeAppend | src/test/ts/test.ts:121-140 | the UTF-8 of a concatenation is the concatenation of the UTF-8s |
| Utf8.UnitRoundTrip | src/test/ts/test.ts:121-140 | decoding one unit's encoding gives the unit back and ends right after it |
| Utf8.UnitExact | src/test/ts/test.ts:121-140 | a unit that decodes was encoded exactly as the decoder read it, with no overlong forms |
| Utf8.RoundTrip | src/test/ts/test.ts:121-140 | decoding exactly the bytes of a text's UTF-8 gives the text back |
| Utf8.DecodeExact | src/test/ts/test.ts:121-140 | a block that decodes is exactly the UTF-8 of what it decodes to |
| Utf8.DecodeIff | src/test/ts/test.ts:121-140 | a block decodes to a text if and only if the block is that text's UTF-8 |
| Utf8.ReadFrom | src/test/ts/test.ts:126 | reading n bytes of UTF-8 consumes exactly n bytes, and fails with out-of-data when fewer are left |
| Utf8.ReadRoundTrip | src/test/ts/test.ts:121-128 | reading a text's UTF-8 by its byte count gives the text and the position after it |
| Io.Writer.constructor | src/test/ts/test.ts:54 | a new writer has written nothing and has the given capacity |
| Io.Writer.Reserve | src/test/ts/test.ts:54-78 | reserving keeps what was written; the buffer stays the same exactly when the bytes fit, and otherwise is replaced by a fresh one at least twice as large |
| Io.Writer.WriteByte | src/test/ts/test.ts:55-56 | the written bytes grow by that byte |
| Io.Writer.WriteBytes | src/test/ts/test.ts:258-268 | the written bytes grow by the given bytes |
| Io.Writer.WriteInt | src/test/ts/test.ts:57-63 | the written bytes grow by the 4-byte encoding |
| Io.Writer.WriteVarInt | src/test/ts/test.ts:64-70 | the written bytes grow by the var-int encoding |
| Io.Writer.WriteZigZagInt | src/test/ts/test.ts:71-77 | the written bytes grow by the zig-zag encoding |
| Io.Writer.WriteUnit | src/test/ts/test.ts:123 | the written bytes grow by the UTF-8 of one code unit |
| Io.Writer.WriteUtf8 | src/test/ts/test.ts:123 | the written bytes grow by the UTF-8 of the text |
| Io.Writer.GetArray | src/test/ts/test.ts:78 | gives exactly the bytes written, not the whole buffer |
| Io.Reader.constructor | src/test/ts/test.ts:48-50 | a new reader is at the start of the given bytes |
| Io.Reader.IsEmpty | src/test/ts/test.ts:81 | empty exactly when the cursor is at the end |
| Io.Reader.ReadByte | src/test/ts/test.ts:82-108 | returns and consumes the next byte, or fails with out-of-data and leaves the cursor |
| Io.Reader.ReadInt | src/test/ts/test.ts:84-90 | returns the int decoded at the cursor and advances past it, or fails and leaves the cursor |
| Io.Reader.ReadVarInt | src/test/ts/test.ts:91-97 | returns the var-int decoded at the cursor and advances past it, or fails and leaves the cursor |
| Io.Reader.ReadZigZagInt | src/test/ts/test.ts:98-104 | returns the zig-zag int decoded at the cursor and advances past it, or fails and leaves the cursor |
| Io.Reader.ReadBytes | src/test/ts/test.ts:258-268 | returns the next n bytes and advances past them, or fails with out-of-data and leaves the cursor |
| Io.Reader.ReadUtf8 | src/test/ts/test.ts:126 | returns the text of the next n bytes and advances past them, or fails and leaves the cursor |
| Io.DecodeUtf8 | src/test/ts/test.ts:126 | the decoding loop computes `Utf8.Decode` of the block, which accepts exactly the per-unit encodings |
| Serializer.CountRoundTrip | src/test/ts/test.ts:211-214 | a length, count, tag or ordinal written as an unsigned var-int reads back |
| Serializer.Encode | src/test/ts/test.ts:178-185 | null, true and false are written as one byte, every other value as at least two; `Serializer.RoundTrip` makes `Serializer.DecodeValue` its inverse |
| Serializer.EncodePayload | src/test/ts/test.ts:187-256 | only null and the booleans are written without a payload |
| Serializer.DecodeValue | src/test/ts/test.ts:178-185 | a successful read consumes at least one byte and stays inside the stream |
| Serializer.DecodePayload | src/test/ts/test.ts:178-185 | a tag beyond the registered types fails with an unknown-type error |
| Serializer.DecodeEnum | src/test/ts/test.ts:194-195 | a decoded constant is of the type read and has an ordinal within that type |
| Serializer.Canon | src/test/ts/test.ts:227-229 | what a copy gives back is of the same kind and carries the same tag as the original |
| Serializer.CanonShape | src/test/ts/test.ts:227-229 | a copy keeps each value's kind, tag, length and absent fields, and only turns null fields into absent ones |
| Serializer.CanonNullFree | src/test/ts/test.ts:227-229 | what a copy gives back has no null field left |
| Serializer.CanonOfNullFree | src/test/ts/test.ts:187-256 | a value with no null field copies to itself |
| Serializer.CanonIdempotent | src/test/ts/test.ts:220-229 | copying a copy changes nothing more |
| Serializer.RoundTrip | src/test/ts/test.ts:178-185 | wherever a well-formed value's encoding sits in a stream, reading there gives its copy and the position right after the encoding |
| Serializer.PayloadRoundTrip | src/test/ts/test.ts:187-256 | the same for the payload after each kind of tag |
| Serializer.ListRoundTrip | src/test/ts/test.ts:211-214 | a list reads back element by element |
| Serializer.RecordRoundTrip | src/test/ts/test.ts:216-256 | a record reads back field by field |
| Serializer.ItemsRoundTrip | src/test/ts/test.ts:211-214 | the elements from index i on read back as their copies |
| Serializer.ItemRoundTrip | src/test/ts/test.ts:211-214 | one element reads back and leaves the stream at the next one |
| Serializer.StringRoundTrip | src/test/ts/test.ts:192-193 | a string payload reads back as the same string |
| Serializer.BytesRoundTrip | src/test/ts/test.ts:262-268 | a byte-block payload reads back as the same bytes |
| Serializer.FieldsRoundTrip | src/test/ts/test.ts:216-256 | the fields from i on read back into the copy's fields |
| Serializer.FieldRoundTrip | src/test/ts/test.ts:227-238 | a present field reads back as its field number and its copy |
| Serializer.FilledCanon | src/test/ts/test.ts:227-229 | filling the read fields into an all-absent record gives the copy's fields |
| Serializer.UnknownTagFails | src/test/ts/test.ts:178-185 | a stream that starts with an unregistered tag fails with an unknown-type error |
| Serializer.UnknownOrdinalFails | src/test/ts/test.ts:194-195 | an ordinal beyond its enumeration's constants fails with an unknown-ordinal error |
| Serializer.UnknownFieldFails | src/test/ts/test.ts:216-256 | a field number beyond its record's fields fails with an unknown-field error |
| LocalSerializer.Write | src/test/ts/test.ts:180 | writing a value appends exactly its encoding |
| LocalSerializer.WritePayload | src/test/ts/test.ts:180 | writing a payload appends exactly its encoding |
| LocalSerializer.WriteItems | src/test/ts/test.ts:211-214 | writing a list's elements appends their encodings in order |
| LocalSerializer.WriteFields | src/test/ts/test.ts:216-256 | writing a record's fields appends the present ones and the end mark |
| LocalSerializer.Read | src/test/ts/test.ts:182 | reading gives what the wire format decodes at the cursor, and advances past it on success |
| LocalSerializer.ReadPayload | src/test/ts/test.ts:182 | reading a payload gives what the wire format decodes, dispatching on the tag |
| LocalSerializer.ReadItems | src/test/ts/test.ts:211-214 | the loop reads the count's elements as the wire format decodes them |
| LocalSerializer.ReadFields | src/test/ts/test.ts:216-256 | the loop reads fields up to the end mark as the wire format decodes them |
| LocalSerializer.Copy | src/test/ts/test.ts:178-185 | copying a well-formed value gives its copy `Canon(v)` and leaves the reader empty; a value without null fields comes back unchanged |
| LocalSerializer.Compare | src/test/ts/test.ts:199-209 | true exactly when the arrays have the same length and equal elements |
| IoTest.WithRoundTrip | src/test/ts/test.ts:57-104 | each of the three int codecs reads back what it wrote |
| IoTest.WriteAll | src/test/ts/test.ts:57-77 | writing the samples appends their encodings in order |
| IoTest.ReadBack | src/test/ts/test.ts:84-104 | reading the samples' encodings gives the samples back and ends after them |
| IoTest.NextRoundTrip | src/test/ts/test.ts:84-104 | the next sample reads back and leaves the stream at the one after it |
| IoTest.IoScenarioSize | src/test/ts/test.ts:78 | two bytes and the samples as int, var-int and zig-zag take 74 bytes |
| IoTest.IoScenario | src/test/ts/test.ts:54-108 | the stream has the sum of the encodings' sizes; the reader is non-empty before and empty after reading back every value; reading past the end fails |
| IoTest.WriteSamples | src/test/ts/test.ts:54-78 | the writer holds 123, 210 and the three encodings of the samples |
| IoTest.ReadSamples | src/test/ts/test.ts:80-108 | reading the stream gives 123, 210 and the samples three times, then fails with out-of-data |
| IoTest.MalformedVarIntScenario | src/test/ts/test.ts:110-119 | reading a var-int from five 0x80 bytes fails as malformed |
| IoTest.FiveContinuations | src/test/ts/test.ts:110-119 | five continuation bytes do not decode as a var-int |
| IoTest.Utf8Scenario | src/test/ts/test.ts:121-128 | writing a text gives its encoded length; reading that many bytes gives the text and empties the reader |
| IoTest.Utf8Sizes | src/test/ts/test.ts:130-140 | the eleven texts of the test take 2, 3, 3, 3, 3, 4, 4, 4, 5, 5 and 5 bytes |
| Contract.PriceTypeConstants | src/test/ts/test.ts:146-157 | ASK has number 1 and name "ASK", BID number 0 and name "BID", and they are different constants |
| Contract.ScalarCopyIdentical | src/test/ts/test.ts:187-197 | null, booleans, integers, strings, bytes and enumeration constants copy to themselves |
| Contract.TextWellFormed | src/test/ts/test.ts:192-193 | a short string of the tests can be written |
| Contract.ListsCopy | src/test/ts/test.ts:211-214 | `[]`, `[12]` and `[12, true, "bla"]` can be written and copy to themselves |
| Contract.RecordClean | src/test/ts/test.ts:216-256 | a registered record whose fields are writable and not null copies to itself |
| Contract.StockCopies | src/test/ts/test.ts:216-226 | the stock "1344"/"IBM" with dividend true or false copies to itself |
| Contract.NullDividendCopies | src/test/ts/test.ts:227-229 | the stock with a null dividend reads back with the dividend absent and the rest unchanged |
| Contract.NullLastField | src/test/ts/test.ts:227-229 | a three-field record whose last field is null reads back with it absent |
| Contract.BondCopies | src/test/ts/test.ts:231-238 | a bond keeps its nested expiration year, month and day |
| Contract.ExceptionCopies | src/test/ts/test.ts:240-247 | the exception keeps its ids ["a", "b"], its bond comment and its empty dump |
| Contract.PriceCopies | src/test/ts/test.ts:249-256 | the price keeps "123", ASK and 999 |
| Interceptor.Compose | src/test/ts/test.ts:345-348 | one interceptor wrapping another is `DIRECT` exactly when both are; `Interceptor.ComposeSteps` gives what it does |
| Interceptor.Composite | src/test/ts/test.ts:342-349 | `composite(...)` is `DIRECT` exactly when every argument is `DIRECT`, so `composite()` is `DIRECT` |
| Interceptor.Apply | src/test/ts/test.ts:326-340 | an interceptor without rewriters leaves parameter 0 as it is, and one with a single `i(id)` makes it `p * 10 + id` |
| Interceptor.ApplyRunsSteps | src/test/ts/test.ts:326-340 | a chain rewrites the parameter by its interceptors one after the other, outermost first |
| Interceptor.ComposeSteps | src/test/ts/test.ts:336-349 | composing two interceptors runs the outer one's rewrites before the inner one's |
| Interceptor.CompositeSteps | src/test/ts/test.ts:336-349 | `composite(i1, ..., in)` runs the rewrites of i1 first and of in last |
| Interceptor.CompositeOfNothing | src/test/ts/test.ts:342 | `composite()` is `DIRECT` itself |
| Interceptor.CompositeOfOne | src/test/ts/test.ts:346 | the composite of one interceptor is that interceptor |
| Interceptor.DirectIsUnit | src/test/ts/test.ts:345-348 | `DIRECT` on either side of a composition leaves the other interceptor |
| Interceptor.ComposeAssociative | src/test/ts/test.ts:336-349 | composition is associative in what the chain does |
| Interceptor.RunIsAppendIds | src/test/ts/test.ts:331 | rewriting p by ids d1 ... dn in turn gives p with d1 ... dn appended in that order (each a decimal shift and an add) |
| Interceptor.RewritersRunInOrder | src/test/ts/test.ts:336-349 | the composite of `i(d1) ... i(dn)` turns p into p with d1 ... dn appended in that order |
| Interceptor.InvokeResults | src/test/ts/test.ts:344-349 | `invoke` gives 0, 0, 123, 123, 123 and 987 for the six calls of the test |
| Interceptor.RewriteInPlace | src/test/ts/test.ts:331 | parameter 0 becomes `p * 10 + id` and the others stay |
| Interceptor.Invoke | src/test/ts/test.ts:328-338 | each interceptor rewrites parameter 0 in place, outermost first, the others stay, and the chain returns the target's result |
| Interceptor.InvokeTest | src/test/ts/test.ts:336-340 | `invoke` returns what the composite makes of parameter 0 |
| Services.Accepted | java/main/ch/softappeal/yass/core/remote/Services.java:16-22 | over a run of `contractId` calls, at most one id per call is accepted, and none when every id called is already added |
| Services.AcceptedFresh | java/main/ch/softappeal/yass/core/remote/Services.java:18-22 | an id accepted over a run of calls was asked for and not added before |
| Services.AcceptedDistinct | java/main/ch/softappeal/yass/core/remote/Services.java:16-20 | over any run of `contractId` calls, the accepted ids are pairwise distinct |
| Services.AcceptedCovers | java/main/ch/softappeal/yass/core/remote/Services.java:16-20 | after a run of calls, every id asked for is registered |
| Services.AcceptedAppend | java/main/ch/softappeal/yass/core/remote/Services.java:16-20 | later calls see the ids registered by earlier ones |
| Services.Services.constructor | java/main/ch/softappeal/yass/core/remote/Services.java:10-16 | a new registry keeps the given factory and has no ids |
| Services.Services.ContractIdOf | java/main/ch/softappeal/yass/core/remote/Services.java:18-23 | a new id is added and comes back with the contract and this registry's factory; an id already added throws `IllegalArgumentException` and changes nothing; the registered ids stay pairwise distinct |
| Services.NewServices | java/main/ch/softappeal/yass/core/remote/Services.java:12-14 | a null factory throws `NullPointerException`; otherwise the new registry keeps the factory and has no ids |

## Left out

- `Writer`, `Reader`, `SERIALIZER` and `composite`: their TypeScript implementations are not part of this model. The test pins most of the byte layout, but not all of it. These are this model's choices:
  - big-endian ints;
  - the tag numbers;
  - records as (field number, value) pairs ended by 0;
  - UTF-8 decoding that rejects overlong forms, stray continuation bytes and four-byte forms.
- Floating point: `JsDouble` (test.ts lines 196-197), the bond's `coupon` (lines 232, 235, 246) and the float tag are not modelled. The bond is modelled without its coupon.
- `remoteSerializerTest` (lines 274-324) is not modelled. It needs a socket session, timers and a server.
- `promiseTest` (lines 355-392) and the deferred results are not modelled.
- Logging is not modelled. That covers `log` and the `log("id", id)` inside `i(id)`.
- `classTest` (lines 159-174) is not modelled. Its `instanceof` checks concern the TypeScript class hierarchy, which the wire format does not carry.
- `assertThrown` is not modelled as an exception. A read that throws is modelled as a `Failure` result.
- `ContractId.create` and `MethodMapper.Factory` are not modelled. Their internals are not part of this model, so a factory is a name and a contract id is the triple it is built from.
- `Services.Services.ContractIdOf` carries the id in its `IllegalArgumentException` but not the text "service with id … already added".
- `Services.Services` uses a type parameter for the contract's `Class<C>`. Because `Services` is abstract, the subclasses that declare contract ids are not modelled.
- `LocalSerializer.Compare` compares elements by value. JavaScript's `!==` compares strings, numbers and booleans by value, and records and enumeration constants by reference. The test compares only strings, numbers and booleans, where the two agree.
- `IoTest.IoScenario` is stated for any list of sample ints, not only the seven of the test. `IoTest.IoScenarioSize` gives the 74 bytes of the test's own samples.
- `Interceptor.Invoke` models interceptors of the test's two kinds only: `DIRECT` and `i(id)`. Both always proceed and return the continuation's result. Interceptors that skip, repeat or wrap the continuation are not modelled.
- `Io.Writer.WriteInt`, `Io.Writer.WriteVarInt` and `Io.Writer.WriteZigZagInt` take `int32`, and so does `Serializer.Value.Int`. A JavaScript number outside 32 bits would be wrapped by the bit operations. That case is not modelled.
- `Utf8.EncodeUnit` encodes each UTF-16 code unit on its own, surrogates included. A unit in U+D800..U+DFFF becomes three bytes (CESU-8 style), so a character beyond U+FFFF takes six bytes instead of UTF-8's four. RFC 3629 forbids this form.
- `Utf8.DecodeUnit` accepts such three-byte surrogate forms, which RFC 3629 rejects, and rejects four-byte forms.
- `LocalSerializer.Write` and `LocalSerializer.Copy` require a well-formed value. Writing an enumeration constant or record of an unregistered type, or a record of the wrong shape, makes the TypeScript serializer fail; that failure is not modelled.
- `Io.Writer.WriteByte` takes a byte in 0..255. Storing any other number into the `Uint8Array` buffer would truncate it to its low eight bits; that case is not modelled.
- `Interceptor.Rewrite` uses unbounded integers. JavaScript numbers are doubles, which agree with them on the test's small values.
- Java `int` is modelled as `int32` and `HashSet<Integer>` as `set<int32>`.
- `SslTest.java` is not modelled: TLS, sockets, threads and sleeps.
- `Exceptions.java` is not modelled. It prints to standard error, reads the clock and exits the process.
