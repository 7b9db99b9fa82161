# WebSocket frame encoder, modelled in Dafny

This project models the frame assembler of `websocket-encoder.js`. The
assembler takes a frame description: payload bytes, opcode, the FIN and
RSV1-3 flags, a masking flag, a compression flag and an optional close code.
It returns an ordered list of labelled sections. Concatenated, the sections'
bytes follow the layout of section 5.2 of RFC 6455:

- a first byte packing the flags and the low four opcode bits;
- a second byte holding the MASK bit and a seven-bit length, followed by a
  16-bit or 64-bit big-endian extended length when needed;
- the four-byte masking key, when the frame is masked;
- the payload, masked as section 5.3 of RFC 6455 prescribes. A close frame
  whose close code is present and not zero, and whose payload is not empty,
  has its payload split into a code part of the first two bytes and a reason
  part of the rest. The reason part is left out when the payload has at most
  two bytes.

There is one exception to the layout. A control frame other than close
(ping, pong, opcodes 11 to 15, and any raw opcode of 16 or more) never
carries its payload bytes. Its second byte still announces the payload's
length, so when that payload is not empty the bytes are not one well-formed
frame; `Rfc6455.WithheldPayloadUnreadable` proves that no receiver reads
them as one. `Encoder.PingDropsPayload` shows a ping with payload 01 02 03,
unmasked, sent as 89 03.

The modules follow the source's pieces:

- `Bytes`: octets, big-endian integers and the bitwise exclusive or.
- `Masking`: `applyMask`.
- `RunLength` and `Compression`: `compressPayload`. Its DEFLATE stream is an
  opaque function that may fail. Its run-length fallback is a loop proved
  against a run-based definition of the code.
- `Rfc6455`: the wire layout, plus a reader of that layout. The reader is
  used to state what a receiver recovers from the encoder's bytes.
- `Encoder`: `opName` and `getWebSocketFrameSections`. Like the source, the
  model builds the section list by successive pushes. Each push is proved
  to keep three facts true:
  - every section holds what its kind calls for;
  - the section kinds so far are the expected prefix;
  - the bytes so far are the expected prefix of the wire frame.

The encoder's main postcondition states the central property: the
sections' bytes, one after the other, are exactly

    header byte ++ length field ++ (key if masked) ++ (masked payload if emitted)

with the payload emitted only for non-control and close frames that have
one.

Inputs that the source draws from its environment are parameters:

- the masking key, which `newMask` draws at random;
- the DEFLATE stream and whether one exists;
- the UTF-8 text decoder and encoder.

## Model

| member | source | states |
|---|---|---|
| Bytes.Xor | websocket-encoder.js:6 | each bit of `a ^ b` is set exactly when `a` and `b` differ in that bit |
| Bytes.XorTwice | websocket-encoder.js:6 | XOR-ing a byte twice with the same key byte gives the byte back |
| Bytes.BigEndianRoundTrip | websocket-encoder.js:267-272 | reading back the `width` big-endian bytes of `n` gives `n` modulo 256^width: the loop keeps the low bytes of the length |
| Bytes.BigEndianExact | websocket-encoder.js:235-238 | a length that fits in the field's width reads back exactly |
| Masking.ApplyMask | websocket-encoder.js:5-7 | masking keeps the payload's length |
| Masking.MaskInvolution | websocket-encoder.js:5-7 | masking twice with the same four-byte key restores the payload |
| Masking.MaskExample | websocket-encoder.js:5-7 | "hi" (68 69) masked with the key 01 02 03 04 is 69 6b |
| Masking.MaskPrefix | websocket-encoder.js:312-318 | the first `j` masked bytes are the masked first `j` bytes, so the close-code section is the masked code |
| Masking.MaskSuffix | websocket-encoder.js:312-319 | the masked bytes from offset `j` on are that suffix masked with the key rotated by `j`, so the close reason unmasks with the key rotated by two |
| RunLength.Decimal | websocket-encoder.js:62 | the count written into the code is a non-empty string of digits, one digit exactly when the count is below 10; that it has no leading zero is `RunLength.DecimalNoLeadingZero` |
| RunLength.DecimalNoLeadingZero | websocket-encoder.js:62 | the notation of a positive count does not start with a zero, as JavaScript writes a number into a string |
| RunLength.DecimalValue | websocket-encoder.js:62 | the decimal notation of a count reads back to the count |
| RunLength.DecimalShorter | websocket-encoder.js:61-62 | a count of two or more has fewer digits than its value |
| RunLength.LeadingRun | websocket-encoder.js:57-60 | the leading run is at least one character long and is followed by the end or by a different character |
| RunLength.LeadingRunIsRun | websocket-encoder.js:57-60 | the leading run is made of copies of the first character |
| RunLength.TokenCount | websocket-encoder.js:61-65 | a run's code ends with the run's character; it is that character alone exactly when the run has length one; otherwise the digits before the character read back to the run's length and do not start with a zero |
| RunLength.TokenNoLonger | websocket-encoder.js:61-65 | a run's code is never longer than the run |
| RunLength.Rle | websocket-encoder.js:53-77 | the code is empty exactly when the text is |
| RunLength.RleNoLonger | websocket-encoder.js:53-77 | the run-length code is never longer than its text |
| RunLength.RleRoundTrip | websocket-encoder.js:53-77 | on text without decimal digits, expanding the run-length code restores the text |
| RunLength.RleAmbiguousOnDigits | websocket-encoder.js:53-77 | text with digits has an ambiguous code: "aa" and "2a" both code to "2a" |
| Compression.Compress | websocket-encoder.js:9-83 | the empty payload compresses to nothing, and a failing DEFLATE stream leaves the payload unchanged |
| Compression.CompressPayload | websocket-encoder.js:9-83 | returns the compressor's bytes for every payload, stream or no stream |
| Compression.EncodeRuns | websocket-encoder.js:53-75 | the counting loop produces the run-length code of the whole text |
| Compression.FallbackRecoverable | websocket-encoder.js:48-77 | without a stream, the compressed bytes decode to a text that expands back to the payload's text, when that text has no digits and the UTF-8 codec reads back what it wrote |
| Rfc6455.Bit | websocket-encoder.js:189-192 | a flag's bit is 1 exactly when the flag is set |
| Rfc6455.HeaderBits | websocket-encoder.js:189-195 | the packed first byte fits in a byte, and each flag and the low four opcode bits read back from their places |
| Rfc6455.HeaderByte | websocket-encoder.js:189-195 | reading the header byte gives back FIN, RSV1-3 and `opcode & 0x0f` |
| Rfc6455.LengthIndicator | websocket-encoder.js:217-265 | the seven-bit length indicator is below 128 |
| Rfc6455.LengthField | websocket-encoder.js:216-294 | the length field is 1, 3 or 9 bytes long, for lengths below 126, below 65536 and above |
| Rfc6455.SecondByteBits | websocket-encoder.js:217-218 | the second byte's top bit is set exactly when masked, and its low seven bits are the length indicator |
| Rfc6455.LengthFieldRoundTrip | websocket-encoder.js:216-294 | every length below 2^64 reads back from its field, with the MASK bit and the field's size, whatever follows |
| Rfc6455.LengthBoundaries | websocket-encoder.js:220-294 | the encodings at the boundaries 125, 126, 65535 and 65536 are the exact bytes RFC 6455 gives |
| Rfc6455.Working | websocket-encoder.js:312-315 | the bytes sent for the payload are as long as the payload |
| Rfc6455.WireLength | websocket-encoder.js:187-364 | a frame is 2 + (0, 2 or 8) + (4 if masked) + (the payload length if emitted) bytes long |
| Rfc6455.BodyRoundTrip | websocket-encoder.js:216-364 | after the first byte, a receiver recovers the MASK bit, the key and the unmasked payload |
| Rfc6455.FrameRoundTrip | websocket-encoder.js:187-364 | a receiver recovers every field of a frame that carries its payload |
| Rfc6455.WithheldPayloadUnreadable | websocket-encoder.js:310-311 | a frame whose non-empty payload is dropped still announces its length, so it is not one whole frame |
| Rfc6455.CloseCodeRecoverable | websocket-encoder.js:317-347 | when the payload opens with a big-endian code, the first two bytes on the wire unmask to the code, and the rest unmask with the rotated key to the reason |
| Encoder.OpName | websocket-encoder.js:124-141 | the name is "Unknown" exactly when the opcode is none of 0, 1, 2, 8, 9, 10 |
| Encoder.OpNameInvertible | websocket-encoder.js:124-141 | each defined opcode's name leads back to that opcode, so no two defined opcodes share a name |
| Encoder.IsData | websocket-encoder.js:170 | the data opcodes are exactly those named Continuation, Text and Binary, and none of them is a control opcode |
| Encoder.IsControl | websocket-encoder.js:216 | for a four-bit opcode, control exactly when its top bit is set, as section 5.5 of RFC 6455 defines control frames |
| Encoder.Truthy | websocket-encoder.js:317 | a close code counts exactly when it is neither absent nor zero |
| Encoder.PayloadEmitted | websocket-encoder.js:310-311 | the payload is written exactly when the opcode is at most 8 and the final payload is not empty; never for ping or pong |
| Encoder.PingDropsPayload | websocket-encoder.js:216-311 | an unmasked ping with payload 01 02 03 is not emitted and goes on the wire as 89 03 |
| Encoder.FinalPayload | websocket-encoder.js:168-185 | the payload is unchanged unless compression was asked for on a data opcode |
| Encoder.CompressionInfoOf | websocket-encoder.js:168-185 | a compression report exists exactly when compression was asked for on a data opcode (0, 1 or 2), and it holds the payload's length before and after compression |
| Encoder.Take | websocket-encoder.js:318 | `slice(0, 2)` gives all bytes when there are at most two, and two otherwise |
| Encoder.Drop | websocket-encoder.js:319 | `slice(2)` gives nothing when there are at most two bytes, and the rest otherwise |
| Encoder.TakeDropSplit | websocket-encoder.js:317-319 | the close code and reason bytes together are the whole working payload |
| Encoder.MaskingKeyIffMasked | websocket-encoder.js:296-308 | a frame has a masking-key section exactly when it is masked, whatever the payload |
| Encoder.CloseCodeSectionReadsBack | websocket-encoder.js:317-332 | with the code packed into the payload, the close-code section's original bytes are the code's bytes, its wire bytes unmask to the code, and its reported value is the caller's close code |
| Encoder.Uint64BigEndian | websocket-encoder.js:267-272 | the loop from place 7 down to 0 produces the 8-byte big-endian length |
| Encoder.NextLengthByte | websocket-encoder.js:269-272 | one round of the loop appends the byte of the next lower place |
| Encoder.ExtendedLengthField | websocket-encoder.js:231-272 | for lengths of 126 or more, the indicator byte and the extended length are the length field |
| Encoder.PushLengthSections | websocket-encoder.js:216-294 | pushes one `length` section below 126, else `extendedLengthInfo` and `extendedLength`, whose bytes are the length field |
| Encoder.PushExtendedLength | websocket-encoder.js:231-294 | pushes the 126 or 127 indicator section and the 16-bit or 64-bit length section |
| Encoder.PushMaskingKey | websocket-encoder.js:296-308 | pushes a section with exactly the four key bytes when masked, and nothing otherwise |
| Encoder.PushPayloadSections | websocket-encoder.js:310-364 | pushes nothing for ping, pong and empty payloads. A close frame with a truthy code gets a code section and a reason section (the reason omitted when empty); every other frame gets one payload section. Their bytes are the working payload |
| Encoder.GetWebSocketFrameSections | websocket-encoder.js:147-380 | fails with "payload required" exactly when the payload is missing, and with "too large" exactly when it is longer than 2^53 - 1 bytes. Otherwise the sections' bytes are the wire frame, the kinds are the expected sequence, every section holds what its kind calls for, and the frame details report the flags, the key and both lengths |

## Left out

- `decompressPayload` and the DEFLATE stream's internals are not modelled. They are browser stream APIs; the stream is an opaque function that may fail.
- `newMask` is not modelled. Its key comes from `Math.random`, so the key is a parameter of the encoder.
- The UTF-8 `TextDecoder` and `TextEncoder` are opaque functions. The run-length loop works on characters, where JavaScript strings hold UTF-16 code units.
- The async behaviour of `compressPayload` and `getWebSocketFrameSections` is not modelled; both are sequential computations here.
- RunLength.Decimal: its own ensures do not exclude a leading zero; `RunLength.DecimalNoLeadingZero` proves that, because as a postcondition of `Decimal` it made the run-length loop's proofs run out of resource.
- Encoder.CompressionInfoOf: does not carry `compressionRatio`, which is a floating-point percentage formatted with `toFixed`.
- Encoder.GetWebSocketFrameSections: does not produce the display-only strings: `description`, `byteString`, the hex digits of the key, the `"1"`/`"0"` bit strings and `opcodeBits`. It also leaves out the constant flags of the details: `closeCode`, `closeReason` and `payload`, and the masking-key section's `masked: true`.
- Encoder.GetWebSocketFrameSections: the opcode and the close code are integers. Non-integer numbers and `NaN` are not modelled, so a close code is truthy exactly when it is present and not zero.
- Rfc6455.LengthFieldRoundTrip, Rfc6455.BodyRoundTrip, Rfc6455.FrameRoundTrip and Rfc6455.WithheldPayloadUnreadable: they require a payload shorter than 2^64 bytes. The encoder itself keeps the low 64 bits of any length, which is what its loop computes.
- The header byte ORs together fields that occupy disjoint bits; the model adds them, which gives the same byte.
- A JavaScript payload can never exceed `Number.MAX_SAFE_INTEGER` bytes. The model keeps the source's check as an error result rather than a precondition, so that every input has a defined outcome.
- Two behaviours of the code that a reader might not expect, kept as written:
  - the reported close-code value is the caller's `closeCode`, not a value decoded from the payload's first two bytes;
  - the opcode is any integer; the header keeps its low four bits, while the data and control tests look at the full value.
- `ui-components.js` and `index.js` (DOM construction, highlighting, form reading) are not part of this model.
