# A verified model of the asn1.cpp BER decoder

asn1.cpp decodes a DER/BER byte buffer (X.690) and reports each value it
finds to a `DecoderVisitor`. Its `Decoder` class keeps a cursor `_offset`
into `_data` and walks tag/length/value elements. SEQUENCE and SET are
walked recursively between a start and an end callback. INTEGER, NULL,
BIT STRING, OBJECT IDENTIFIER, PrintableString and UTCTime content each
have their own routine. Every error the decoder detects throws
`FormatError`; some non-conforming encodings are accepted (see below).

The model has two layers.

- The `Ber*` modules give each routine a step function from the buffer and
  the cursor to a `Step`. A `Step` holds the visitor callbacks the routine
  makes and how it returns: `Consumed(next)` or `Failed(error)`. The
  properties of the format are proved about these functions: length
  forms, the sign of an INTEGER, the masking of a BIT STRING, radix
  conversion and exact consumption for an OID, the string character check,
  the SEQUENCE/SET bracketing of the trace, and round trips from an
  encoder's bytes.
- `Asn1Decoder.Decoder` is the C++ class as it runs: a `const data`, a
  mutable `offset`, and a `trace` of callbacks. Its methods use the same
  loops as the source. Each method is proved to append exactly the step
  function's callbacks to `trace` and to return its status, with `offset`
  left at the step's `next`.

A thrown `FormatError` becomes a `Failed` status that every caller passes
straight up, as the exception propagates in the source. Bit operations
(`&`, `|`, `<<`, `>>`) are written over natural numbers in module `Bits`,
with the facts the decoder relies on proved there. Lengths are `u64`, the
source's `uint64_t`. The one place a 64-bit count wraps, the OID count
`remaining--`, is reduced modulo 2^64 explicitly. The length accumulator of
`dec_len` is reduced the same way, and `Asn1Decoder.LengthDigit` proves it
never wraps. Where the source stores a wider value into a `uint8_t`, the
model reduces it modulo 256: the OID repack's `(pb << h) | b` (`BerOid.RepackAt`) and the INTEGER loop's
`x + carry` (`Asn1Decoder.Decoder.ComplementReversed`).

The loops that sit inside one C++ function are split into methods of their
own, each with its own specification:

- `ComplementReversed`: the negative branch of `dec_integer`;
- `ReadGroups` and `RepackInPlace`: the two inner loops of `dec_oid`;
- `DecElement` and `DecContent`: one turn of `dec_asn1` and its `switch`.

Because `DecElement` is a method of its own, the inner `len` that shadows
the outer one in `dec_asn1` is the length of one element there. The outer
loop keeps the enclosing length.

### Where the code differs from X.690 (the model follows the code)

- INTEGER: section 8.3.3 of X.690 makes the content octets a two's
  complement binary number. The code reports a sign flag and a magnitude.
  For a negative value it complements every byte. The carry that would add
  one starts at 0 and can never become 1. So the magnitude is one less
  than the absolute value, and never a byte longer than the content.
  The encodings of -1, -128 and -255 give `[0x00]`, `[0x7F]` and
  `[0x00, 0xFE]` (`BerInteger.NegativeExamples`).
- INTEGER: section 8.3.1 of X.690 requires at least one content octet.
  The code has no such test, so `02 00` is accepted and reported with an
  empty magnitude (`BerWalk.EmptyIntegerExample`).
- NULL: section 8.8.2 of X.690 allows no content octets. The code also
  accepts one zero octet, so `05 01 00` is reported as a NULL and the
  octet is consumed (`BerWalk.NullContentExample`).
- BIT STRING: sections 8.6.2.2 and 8.6.2.3 of X.690 bound the initial
  octet by 7 and make it 0 when there are no further octets. The code
  checks neither, so `03 01 09` is reported as an empty BIT STRING
  (`BerWalk.UnusedOverflowExample`).
- OBJECT IDENTIFIER: section 8.19.4 of X.690 packs the first two arcs
  X and Y into one subidentifier, 40·X + Y. The code reports that
  subidentifier as one component and does not split it
  (`BerOid.Rsadsi`).
- OBJECT IDENTIFIER: section 8.19.2 of X.690 puts no bound on the number of
  base-128 groups in a subidentifier. The code's in-place repacking shifts
  by 7, 6, …, 1 and then by 7 again. It is exact for components of up to
  eight groups and wrong from the ninth group on
  (`BerOid.RepackNineGroups`).
- Length: section 8.1.3.6 of X.690 makes a first length octet of 0x80 the
  indefinite form, whose content ends with end-of-contents octets. The
  code reads it as a long form with no length bytes, so the length is 0.
- Tags: section 8.1.2 of X.690 gives the two high bits of the identifier
  octet as the class and bit 6 as the constructed flag. The code masks
  off only the class bits and dispatches on the rest. So tags of every
  class alias the universal ones. The bare constructed value 0x20 reports
  ConstructedStart and leaves the cursor on its content, which is then
  walked as following elements.
- OCTET STRING (0x04) and UTF8String (0x0C) have tag constants but no
  handler. They end in "unknown type", like every other unmatched type.
- PrintableString uses the error message "invalid date" from UTCTime, so
  one `InvalidDate` error stands for both.

## Model

| member | source | states |
|---|---|---|
| Asn1Decoder.Decoder.constructor | asn1.cpp:427-430 | a decoder over the given buffer starts at offset 0 with nothing reported |
| Asn1Decoder.Decoder.ChkLen | asn1.cpp:165-171 | succeeds exactly when at least n bytes remain after the cursor; otherwise the source throws "data truncated" |
| Asn1Decoder.Decoder.DecLen | asn1.cpp:173-204 | returns the length that LengthStep gives at the starting cursor and leaves the cursor just after the length octets; on the way, the 64-bit accumulator always holds the big-endian value of the length bytes read so far |
| Asn1Decoder.LengthDigit | asn1.cpp:197-201 | `(len << 8) + b` appends one big-endian digit and, with at most eight bytes, never exceeds 2^64 - 1 |
| BerLength.LengthStep | asn1.cpp:173-204 | a decoded length ends at least one octet after its start and within the buffer |
| BerLength.LengthOutcomes | asn1.cpp:175-203 | a missing first octet is truncation; below 0x80 it is the length itself; 0xFF is "invalid length-length"; 0x89..0xFE is "refuse to handle big length-length"; 0x80 + k for k ≤ 8 takes the next k bytes big-endian, or reports truncation when fewer remain |
| BerLength.LowSeven | asn1.cpp:189 | `len_len_code & 0x7f` is the code less 0x80 for a long-form code |
| BerLength.ShortFormRoundTrip | asn1.cpp:178-181 | a one-octet length below 0x80 decodes to itself and consumes one octet, whatever surrounds it |
| BerLength.LongFormRoundTrip | asn1.cpp:189-202 | 0x80 + k followed by the k big-endian bytes of any n < 2^(8k) decodes to n and consumes 1 + k octets, whatever surrounds it |
| BerLength.BigEndianBytesValue | asn1.cpp:197-201 | the big-endian bytes an encoder writes for n < 2^(8k) have value n |
| Asn1Decoder.Decoder.DecInteger | asn1.cpp:206-239 | makes exactly IntegerStep's callback and returns its status: truncation when fewer than len bytes remain, else one Integer with the sign of the first byte and the content (complemented when negative), cursor after the content |
| Asn1Decoder.Decoder.ComplementReversed | asn1.cpp:221-233 | the reverse loop with a carry that starts at 0, followed by `reverse`, yields exactly the bytewise complement of the content in the original order |
| Asn1Decoder.Reverse | asn1.cpp:232 | the result has the same length, and position i holds the element mirrored from the end |
| BerInteger.IntegerStep | asn1.cpp:206-239 | a decoded INTEGER ends within the buffer; a failure reports nothing |
| BerInteger.ComplementValue | asn1.cpp:226 | complementing every byte of an n-byte value v gives 2^(8n) - 1 - v |
| BerInteger.SignBit | asn1.cpp:217-218 | the first byte is above 0x7F exactly when the content's unsigned value reaches 2^(8n-1), i.e. exactly when the two's-complement value is negative |
| BerInteger.IntegerMeaning | asn1.cpp:206-239 | truncation reports nothing; otherwise the magnitude is as long as the content, the flag is set exactly for a negative two's-complement value, and the magnitude is the value itself when it is not negative and the absolute value minus one when it is |
| BerInteger.NegativeExamples | asn1.cpp:221-233 | the encodings of -1, -128 and -255 are reported with magnitudes 0x00, 0x7F and 0x00 0xFE |
| Asn1Decoder.Decoder.DecNull | asn1.cpp:241-257 | makes exactly NullStep's callback and returns its status, cursor after the content |
| BerNull.NullStep | asn1.cpp:241-257 | an accepted NULL ends within the buffer; a refused one reports nothing |
| BerNull.NullOutcomes | asn1.cpp:241-257 | NULL is accepted exactly for length 0, and for length 1 with a present zero octet; it then reports one Null and consumes len bytes; length above 1 is "wrong NULL length", a missing octet is truncation, a non-zero octet is "wrong NULL value" |
| Asn1Decoder.Decoder.DecBitString | asn1.cpp:259-278 | makes exactly BitStringStep's callback and returns its status; reads the unused-bits octet and then each content byte after its own bounds check |
| BerBitString.BitStringStep | asn1.cpp:259-278 | a decoded BIT STRING ends within the buffer; a failure reports nothing |
| BerBitString.MaskClearsLowBits | asn1.cpp:275 | for unused ≤ 7, `last & ~((1 << unused) - 1)` is divisible by 2^unused and keeps every bit of last above the low unused bits |
| BerBitString.BitStringMeaning | asn1.cpp:259-278 | length 0 is "bitstring missing 'unused' prefix"; too few bytes is truncation; otherwise len bytes are consumed and the len - 1 bytes after the unused-bits octet are reported, unchanged except that the last has its low unused bits cleared (all of them for unused ≥ 8) |
| Asn1Decoder.Decoder.DecOid | asn1.cpp:280-322 | makes exactly OidStep's callback and returns its status: components are read while the count is not zero, each packed in place and appended |
| Asn1Decoder.Decoder.ReadGroups | asn1.cpp:288-300 | reads bytes up to and including the first one below 0x80, keeping each byte's low seven bits; it fails exactly when VlqStep reports truncation, and otherwise returns VlqStep's groups and end with the count reduced by their number modulo 2^64 |
| Asn1Decoder.GroupStep | asn1.cpp:292-299 | one byte of the component loop adds its low seven bits to the groups; the component ends there exactly when its high bit is clear |
| Asn1Decoder.CountDown | asn1.cpp:294 | `remaining--` on a count already reduced modulo 2^64 keeps it equal to the initial count less the bytes read, modulo 2^64 |
| Asn1Decoder.Decoder.RepackInPlace | asn1.cpp:306-318 | the do-while loop from the last position to the first writes exactly Repack of the groups |
| Asn1Decoder.RepackTurn | asn1.cpp:310-317 | one turn of the do-while writes RepackAt at its position, carries Carry on, and moves h to the next Shift |
| Asn1Decoder.ShiftNext | asn1.cpp:313-317 | `h--; if (h < 1) h = 7;` steps through Shift: 7, 6, …, 1, 7, … |
| BerOid.VlqStep | asn1.cpp:288-300 | a component that is read takes one group per byte it consumes and ends within the buffer |
| BerOid.VlqShape | asn1.cpp:288-300 | a component is truncated exactly when no byte below 0x80 remains; otherwise it ends at the first such byte, every byte before it has its high bit set, and each group is its byte modulo 128 |
| BerOid.Shift | asn1.cpp:306-317 | the shift h always lies between 1 and 7 |
| BerOid.Repack | asn1.cpp:306-318 | packing leaves a component as long as its groups |
| BerOid.RepackSingle | asn1.cpp:306-318 | a one-group component is reported unchanged |
| BerOid.RepackValue | asn1.cpp:301-318 | for at most eight groups, the packed bytes read big-endian have the value of the groups read base 128 |
| BerOid.RepackNineGroups | asn1.cpp:306-318 | the nine groups 1, 0, …, 0 (the value 2^56) are packed into bytes with the value 2^63, so the packing is wrong from the ninth group on |
| BerOid.OidComponents | asn1.cpp:283-320 | the components, when read, end within the buffer |
| BerOid.OidStep | asn1.cpp:280-322 | a decoded OID ends within the buffer; a failure reports nothing |
| BerOid.OidOverrun | asn1.cpp:283-299 | over fewer than 2^64 bytes, a count larger than the bytes left always ends in truncation, however the count wraps |
| BerOid.OidConsumesDeclared | asn1.cpp:283-320 | a successfully decoded OID consumes exactly its declared length, even when a component overruns the count and makes it wrap |
| BerOid.VlqReadsMarked | asn1.cpp:288-300 | the component reader takes back exactly the groups an encoder writes with the high bit on every byte but the last |
| BerOid.ArcComponent | asn1.cpp:301-318 | an arc below 2^56 comes back from its own encoding with its value, in as many bytes as the encoding has |
| BerOid.OidRoundTrip | asn1.cpp:280-322 | the content an encoder writes for arcs below 2^56 decodes to one component per arc, each holding the arc's value, and consumes exactly that content, whatever surrounds it |
| BerOid.RsadsiComponents | asn1.cpp:283-320 | `2A 86 48 86 F7 0D` reads as three components with the values 42, 840 and 113549 and consumes all six bytes |
| BerOid.Rsadsi | asn1.cpp:280-322 | the OID 1.2.840.113549 is reported as the components 42, 840 and 113549: the first byte is not split into the arcs 1 and 2 |
| BerText.TextScan | asn1.cpp:327-336 | a scan that succeeds consumes count bytes, all of them within 0x1F..0x7F |
| BerText.TextScanOutcome | asn1.cpp:327-336 | the scan fails with "invalid date" when a present byte is out of range, else with truncation when bytes are missing, else it consumes all count bytes |
| BerText.PrintableStringStep | asn1.cpp:324-338 | a decoded PrintableString ends within the buffer; a failure reports nothing |
| BerText.PrintableStringMeaning | asn1.cpp:324-338 | a PrintableString is accepted exactly when all len bytes are present and within 0x1F..0x7F; its text is those bytes |
| Asn1Decoder.Decoder.DecPrintableString | asn1.cpp:324-338 | makes exactly PrintableStringStep's callback and returns its status |
| BerText.UtcTimeStep | asn1.cpp:354-371 | a decoded UTCTime ends within the buffer; a failure reports nothing |
| BerText.UtcTimeMeaning | asn1.cpp:354-371 | a UTCTime is accepted exactly when its length is 10 to 17 and all its bytes are present and within 0x1F..0x7F; a bad length is reported first, then truncation, then a bad byte; the text is the bytes |
| Asn1Decoder.Decoder.DecUtcTime | asn1.cpp:354-371 | makes exactly UtcTimeStep's callback and returns its status |
| Asn1Decoder.Decoder.DecSequence | asn1.cpp:340-345 | reports SequenceStart, the callbacks of the walk over its content and, when the walk succeeds, SequenceEnd |
| Asn1Decoder.Decoder.DecSet | asn1.cpp:347-352 | reports SetStart, the callbacks of the walk over its content and, when the walk succeeds, SetEnd |
| BerWalk.Enclose | asn1.cpp:340-352 | a bracketed walk returns as the inner walk does |
| BerWalk.TagParts | asn1.cpp:381-384 | the class is the tag divided by 64, always below 4; the masked type, which the dispatch uses, is the tag modulo 64; together they make up the tag |
| BerWalk.ElementDispatch | asn1.cpp:378-418 | the content handler is chosen by the tag modulo 64, so the class bits never change the outcome |
| BerWalk.ElementStep | asn1.cpp:378-418 | a decoded element takes at least its tag and length octets and ends within the buffer |
| BerWalk.ContentStep | asn1.cpp:387-418 | a content handler ends somewhere between the content start and the end of the buffer |
| BerWalk.UnknownTypeRefused | asn1.cpp:416-417 | a masked type outside the nine handled ones, OCTET STRING and UTF8String among them, is "unknown type" with nothing reported |
| Asn1Decoder.Decoder.DecContent | asn1.cpp:387-418 | makes exactly ContentStep's callbacks for the masked type and returns its status |
| Asn1Decoder.Decoder.DecElement | asn1.cpp:378-418 | reads the tag, computes and drops the class, masks the type, reads the length and dispatches; makes exactly ElementStep's callbacks |
| BerWalk.ElementsStep | asn1.cpp:373-424 | a successful walk of len bytes ends exactly len bytes after its start |
| Asn1Decoder.Decoder.DecAsn1 | asn1.cpp:373-424 | makes exactly ElementsStep's callbacks and returns its status, so on success the cursor is exactly len bytes further on |
| BerWalk.Overshoot | asn1.cpp:420-423 | an element that ends past the enclosing length is still reported, and the walk then fails with "element(s) were too big" |
| BerWalk.TooBigExample | asn1.cpp:420-423 | `30 03 02 02 05 00` reports SequenceStart and the INTEGER 05 00, then fails with "element(s) were too big" |
| BerWalk.EmptyIntegerExample | asn1.cpp:206-239 | `02 00` is accepted: one INTEGER with an empty magnitude and no sign, both octets consumed |
| BerWalk.NullContentExample | asn1.cpp:241-257 | `05 01 00` is accepted: one NULL, and the zero content octet is consumed |
| BerWalk.UnusedOverflowExample | asn1.cpp:259-278 | `03 01 09` is accepted: one empty BIT STRING, although it claims nine unused bits |
| BerWalk.SequenceExample | asn1.cpp:340-345 | `30 03 02 01 05` reports SequenceStart, the INTEGER 5 and SequenceEnd, and consumes all five bytes |
| BerWalk.Decode | asn1.cpp:432-435 | a buffer that decodes is consumed to its end |
| Asn1Decoder.Decoder.Dec | asn1.cpp:432-435 | walks the whole buffer as one run of elements; from cursor 0, makes exactly Decode's callbacks and returns its status |
| BerWalk.LeafEvents | asn1.cpp:387-409 | every handler but SEQUENCE and SET makes at most one callback, never a start or an end |
| BerWalk.EncloseNested | asn1.cpp:340-352 | wrapping a balanced walk in a matching start and end keeps the trace balanced |
| BerWalk.ElementNested | asn1.cpp:378-418 | an element's callbacks never close a frame they did not open, and close every frame they open when it decodes |
| BerWalk.ContentNested | asn1.cpp:387-418 | the same for one content handler |
| BerWalk.ElementsNested | asn1.cpp:373-424 | the same for a run of elements |
| BerWalk.DecodeNested | asn1.cpp:340-352 | in the trace of a whole buffer every SequenceStart and SetStart is closed by its own end, properly nested, when decoding succeeds; a failing decode gives a prefix of such a trace |
| BerOid.ByteParts | asn1.cpp:295-296 | `b & ~0x80` is b modulo 128, and `b & 0x80` is zero exactly when b < 0x80 |
| BerTypes.Event | asn1.cpp:41-56 | no contract: one constructor per `DecoderVisitor` callback, each carrying that callback's argument |
| BerTypes.Error | asn1.cpp:33-39 | no contract: one constructor per `FormatError` message the decoder throws |
| BerTypes.TagInteger | asn1.cpp:13 | no contract: the constant 0x02 |
| BerTypes.TagBitString | asn1.cpp:14 | no contract: the constant 0x03 |
| BerTypes.TagOctetString | asn1.cpp:15 | no contract: the constant 0x04, which no handler uses |
| BerTypes.TagNull | asn1.cpp:16 | no contract: the constant 0x05 |
| BerTypes.TagOid | asn1.cpp:17 | no contract: the constant 0x06 |
| BerTypes.TagUtf8String | asn1.cpp:18 | no contract: the constant 0x0C, which no handler uses |
| BerTypes.TagPrintableString | asn1.cpp:19 | no contract: the constant 0x13 |
| BerTypes.TagUtcTime | asn1.cpp:20 | no contract: the constant 0x17 |
| BerTypes.TagConstructed | asn1.cpp:22 | no contract: the constant 0x20 |
| BerTypes.TagSequence | asn1.cpp:24 | no contract: the constant 0x30 |
| BerTypes.TagSet | asn1.cpp:25 | no contract: the constant 0x31 |
| BerTypes.MinUtcTimeLen | asn1.cpp:29 | no contract: the constant 10 |
| BerTypes.MaxUtcTimeLen | asn1.cpp:31 | no contract: the constant 17 |
| BerBitString.MaskUnused | asn1.cpp:275 | no contract: `last & ~((1 << unused) - 1)` as a byte; for unused ≥ 8 it is 0, a choice for the shifts where C++ is undefined (see Left out); MaskClearsLowBits states its meaning for unused ≤ 7 |
| BerWalk.TagType | asn1.cpp:384 | no contract: `type & ~0xc0`; TagParts proves it is the tag modulo 64 |
| BerWalk.TagClass | asn1.cpp:382 | no contract: `(type & 0xc0) >> 6`; TagParts proves it is the tag divided by 64, below 4 |
| BerInteger.Not8 | asn1.cpp:226 | no contract: `~b` stored into a byte |
| BerInteger.Complement | asn1.cpp:224-228 | no contract: every byte complemented in place; ComplementValue gives its value and ComplementReversed proves the loop computes it |
| BerOid.Prev | asn1.cpp:310 | no contract: `pb`, the group before position j, or 0 at the front |
| BerOid.Carry | asn1.cpp:307-312 | no contract: `b`, first the last group, then `pb >> (8 - h)` of the step before; CarryBound bounds it |
| BerOid.RepackAt | asn1.cpp:311 | no contract: `(pb << h) \| b` stored into a byte; RepackTurn proves the loop writes it |
| BerOid.Wrap64 | asn1.cpp:294 | no contract: reduction modulo 2^64, the effect of `remaining--` on a `uint64_t`; CountDown and OidConsumesDeclared state its use |
| BerText.TextByte | asn1.cpp:331 | no contract: the byte passes `!(chr < 0x1f \|\| chr > 0x7f)`, the check at asn1.cpp:331 and asn1.cpp:364 |

## Left out

- `DecoderPrintVisitor` and the text it prints are not modelled; the visitor is the recorded `trace` of callbacks.
- `usage`, `main` and file loading are not modelled: they are I/O around the decoder.
- util.cpp is not part of this model; it is an output-indentation helper the decoder does not use.
- The heap ownership of the decoded values (`new`, `unique_ptr`, values that leak when an exception is thrown) is not modelled; values are immutable sequences.
- `1 << unused` for unused ≥ 31 is undefined behaviour in C++. MaskUnused clears the whole last byte for every unused ≥ 8, which is what the C++ gives for 8 to 30.
- Asn1Decoder.Decoder.DecPrintableString: the source reads past the end of `_data` when the content is truncated, which is undefined behaviour. The model checks each byte and fails with "data truncated" instead.
- Asn1Decoder.Decoder.DecAsn1: after a failure only `old(offset) <= offset` is stated, not where the cursor stopped. This holds for every `Dec*` method: once `FormatError` propagates, the source never uses the decoder again.
