# Kart firmware: verified model

A Dafny model of the logic the kart depends on, with proofs of what it promises.

- **Protocol Buffers codec** (nanopb): `Varint`, `OutStream`, `InStream`, `Schema`, `Wire`, `Meaning`, `Encoder`,
  `Decoder`, `Callbacks`. Streams are mutable objects over byte buffers; messages are values over a schema of nested
  field lists. `Wire` says which bytes a message stands for and how bytes divide into fields; `Meaning` says what a
  body does to a message. The stream code of `Encoder` and `Decoder` is proved equal to these two, and `RoundTrip`,
  `Trimming` and `Algebra` hold the laws between them; `OnTheWire` says in numbers which bytes are sent and what any
  received bytes mean. `Descriptor` is the packed field table and its iterator, `TableSearch` puts it in the place of
  the list search.
- **Control core**: `ControlMath` (ramp, dead zone, mixers), `SquareMap`, `Controller` (one tick, and the host that logs
  the arming edges), `ControlRuns` (safety, symmetry and timing over whole runs with any inputs),
  `ControlLaws` (the same runs, rule by rule and exactly).
- **Event log**: `Ring` (the lock-free ring, step by step), `Journal` (the flash journal, power cuts and flash
  failures), `EvLog` (push and drain as whole operations on both), `JournalRuns` (whole lives, and what can be read
  back) and `JournalTask` (the classes taken through such a life).
- **Configuration reply**: `ReplyGuard`, from the clamped configuration to the bytes the codec really emits and their bound,
  and `ReplyContents`, what the page finds in them.
- **CRC-32**: `Crc`, the register loop against division of polynomials over GF(2). `Bits` and `Prelude` are shared.

Where the code and its documentation disagree the model follows the code:

- On a reversal the tick that reaches zero builds up the other way for a full `dt` (`firmware/main/control_math.hpp:45-59`),
  not for what is left of itself (`firmware/README.md:425-427`). `ControlMath.ReversalShare` gives the exact condition
  under which the tick stays within itself, `ControlMath.ReversalOverspends` an instance where it does not.
- A braking tick may still report a residue of at most 1e-4; the ramp memories are 0 (`firmware/main/controller_core.cpp:124-137`).
  `ControlRuns.ResidueExactly` says when there is none, `ControlRuns.ResidueRun` is a run with one.
- `pb_field_iter_find` answers true for the tag it already stands on even if that field is an extension
  (`firmware/components/nanopb/pb_common.c:197-200`; `Descriptor.FindOnExtension`).
- The width asserts of the descriptor formats cast the size offset to eight bits before checking it, and admit an array
  size of 0 in the one-word format (`firmware/components/nanopb/pb.h:786-799`; `Descriptor.AssertsTooWeak`).
- A failing flash read ends the boot scan, and its slot becomes the append point even inside the used region
  (`firmware/main/evlog.cpp:130-140`). `Journal.BootSurvives` gives the exact condition; the claims over whole lives of the
  journal are for lives in which no scan is cut short that way.
- A string in a struct member is sent up to its first zero byte, so the round trip is exact iff there is none.

Hypotheses that appear in the contracts: encoded messages are shorter than 2^32 bytes (`size_t` has 32 bits); descriptors
have ascending tags from 1 to 65535, as the generator emits them; configurations have been clamped (dead zone within
0 and 1, 1 excluded); erasing the partition is atomic; the callbacks of the codec return.

## Model

| member | source | states |
|---|---|---|
| `Varint.DigitsMinimal` | firmware/components/nanopb/pb_encode.c:573-623 | the digits of a varint are the one minimal base-128 string of its value |
| `Varint.MinimalUnique` | firmware/components/nanopb/pb_encode.c:573-623 | every minimal digit string is the encoding of its value, so encodings are unique |
| `Varint.Digits64Length` | firmware/components/nanopb/pb_encode.c:573-605 | an encoded 64-bit value takes at most ten bytes, the size of the local buffer |
| `OutStream.SplitDigits` | firmware/components/nanopb/pb_encode.c:573-605 | the two loops over the 32-bit halves produce exactly the minimal digits of the 64-bit value, inside the ten-byte buffer |
| `OutStream.OStream.EncodeVarint32` | firmware/components/nanopb/pb_encode.c:573-605 | writing the halves of any 64-bit value appends its minimal digits, or fails for lack of room |
| `OutStream.OStream.EncodeVarint` | firmware/components/nanopb/pb_encode.c:607-623 | the one-byte shortcut and the general path append the same digits |
| `OutStream.OStream.EncodeSVarint` | firmware/components/nanopb/pb_encode.c:625-635 | for every int64, the minimum included, the branch on the sign appends the digits of its zigzag image |
| `Varint.ZigZagBijection` | firmware/components/nanopb/pb_decode.c:1356-1368 | zigzag and its inverse are inverse bijections between int64 and uint64 |
| `Varint.ZigZagOrder` | firmware/components/nanopb/pb_encode.c:625-635 | zigzag numbers 0, -1, 1, -2, 2 and so on in this order: every number is followed by its negative less one, and that by the number after it |
| `Varint.Read64Digits` | firmware/components/nanopb/pb_decode.c:243-263 | the 64-bit reader gets a value back from its digits whatever follows, and takes exactly those digits |
| `Varint.Read64RejectsLong` | firmware/components/nanopb/pb_decode.c:253-254 | ten continuation bytes are refused |
| `InStream.IStream.DecodeVarint` | firmware/components/nanopb/pb_decode.c:243-263 | the loop succeeds exactly on complete groups of at most ten bytes fitting 64 bits, yields their value and consumes exactly them |
| `InStream.IStream.DecodeVarint32` | firmware/components/nanopb/pb_decode.c:171-241 | the digit loop with its sign-extension tests succeeds exactly on the groups of 32-bit and sign-extended values, yields the value modulo 2^32 and consumes exactly the group; end of stream before the first byte is told apart |
| `Varint.Read32Refines` | firmware/components/nanopb/pb_decode.c:171-263 | wherever the 32-bit reader succeeds the 64-bit one succeeds, consumes the same bytes and agrees modulo 2^32 |
| `Varint.Read32Exactly` | firmware/components/nanopb/pb_decode.c:200-257 | the 32-bit reader takes exactly the groups of at most ten bytes whose fifth has its three top bits clear, or set with bit 31, and whose later bytes are zeros, or ones under a set bit 31 |
| `Varint.Read32Digits` | firmware/components/nanopb/pb_decode.c:171-235 | the 32-bit reader accepts the encoding of every uint32 |
| `Varint.Read32Negative` | firmware/components/nanopb/pb_decode.c:171-235 | and of every negative int32 sign-extended to ten bytes, giving its low 32 bits |
| `InStream.IStream.SkipVarint` | firmware/components/nanopb/pb_decode.c:266-275 | skipping runs over one complete group of any length |
| `OutStream.OStream.Write` | firmware/components/nanopb/pb_encode.c:84-105 | a write appends all its bytes at the write position or nothing: it fails exactly when the size limit would be passed; a sizing stream only counts; bytes_written moves by what was written |
| `OutStream.OStream.EncodeFixed32` | firmware/components/nanopb/pb_encode.c:637-651 | four bytes, least significant first |
| `OutStream.OStream.EncodeFixed64` | firmware/components/nanopb/pb_encode.c:654-672 | eight bytes, least significant first |
| `OutStream.LittleEndianInverse` | firmware/components/nanopb/pb_decode.c:1370-1417 | reassembling the bytes of a fixed-width value gives the value |
| `OutStream.OStream.EncodeTag` | firmware/components/nanopb/pb_encode.c:675-679 | the key of a field: tag times eight plus wire type, as a varint |
| `OutStream.OStream.EncodeString` | firmware/components/nanopb/pb_encode.c:716-722 | length, then contents |
| `InStream.IStream.Read` | firmware/components/nanopb/pb_decode.c:82-121 | a read succeeds exactly when enough bytes are left; position plus bytes_left does not change |
| `InStream.IStream.ReadByte` | firmware/components/nanopb/pb_decode.c:125-141 | the same for a single byte |
| `InStream.IStream.DecodeTag` | firmware/components/nanopb/pb_decode.c:291-306 | tag and wire type of the key in front; end of stream is distinguished from a malformed key |
| `InStream.IStream.SkipField` | firmware/components/nanopb/pb_decode.c:308-318 | succeeds exactly when a payload of that wire type stands in front, and skips exactly it |
| `InStream.IStream.ReadRawValue` | firmware/components/nanopb/pb_decode.c:323-357 | the raw bytes of one scalar, at most ten |
| `InStream.IStream.MakeSubstream` | firmware/components/nanopb/pb_decode.c:362-375 | the substream holds exactly the payload, its end plus what the parent keeps is where the parent ended |
| `InStream.IStream.CloseSubstream` | firmware/components/nanopb/pb_decode.c:377-390 | whatever was left unread, the parent continues right behind the payload with its bytes_left intact |
| `Wire.TokensConcat` | firmware/components/nanopb/pb_decode.c:1016-1112 | at a field boundary a body divides into the fields before and after it |
| `Trimming.IsDefaultTrimmed` | firmware/components/nanopb/pb_encode.c:244-358 | for any value, zero bytes in strings or not, the proto3 default check holds iff C sees the default contents, recursively through submessages |
| `Encoder.EncodeScalar` | firmware/components/nanopb/pb_encode.c:783-854 | a bool, varint, zigzag or fixed value is appended in its wire form |
| `Encoder.StringLength` | firmware/components/nanopb/pb_encode.c:877-928 | the scan finds the terminator within the array or reports that there is none |
| `Encoder.EncodeDelimited` | firmware/components/nanopb/pb_encode.c:856-928 | bytes, strings and submessages are appended with their length; an oversized byte array or unterminated string fails |
| `Encoder.EncodeSubmessage` | firmware/components/nanopb/pb_encode.c:724-772 | the sizing pass and the bounded writing pass agree: the length prefix is exact and the size never changes between them |
| `Encoder.EncodeBasicField` | firmware/components/nanopb/pb_encode.c:362-403 | key and value of one occurrence |
| `Encoder.PackedSize` | firmware/components/nanopb/pb_encode.c:150-172 | the size computed for a packed array is the number of bytes its items take |
| `Encoder.EncodePacked` | firmware/components/nanopb/pb_encode.c:144-196 | a packed array: one key, the exact length, the items |
| `Encoder.EncodeArray` | firmware/components/nanopb/pb_encode.c:128-240 | packed or unpacked by type; more items than the array holds fails |
| `Encoder.EncodeField` | firmware/components/nanopb/pb_encode.c:418-469 | a field is sent, skipped when absent or default, or fails, as its rule says |
| `Encoder.Encode` | firmware/components/nanopb/pb_encode.c:512-534 | for every message tree the stream receives exactly the encoding, all of it or a failure, and nothing beyond its limit is stored |
| `Encoder.GetEncodedSize` | firmware/components/nanopb/pb_encode.c:557-566 | the sizing pass counts exactly the bytes the writing pass emits |
| `Encoder.EncodeToBuffer` | firmware/main/webserver.cpp:187-205 | encoding into N bytes succeeds iff the message is encodable and its size is at most N; the rest of the buffer is untouched |
| `Decoder.DecodeScalar` | firmware/components/nanopb/pb_decode.c:1420-1495 | reading a packable value: range checks and the narrowing to 32 bits included |
| `Decoder.DecodePacked` | firmware/components/nanopb/pb_decode.c:480-509 | a packed body is appended to the array; it fails exactly when an item is malformed or the array is full |
| `Decoder.DecodeBlob` | firmware/components/nanopb/pb_decode.c:1497-1585 | bytes and strings are taken only if they fit their member, terminator included |
| `Decoder.DecodeSubmessage` | firmware/components/nanopb/pb_decode.c:1587-1637 | a submessage body is merged into what the member held |
| `Decoder.DecodeBasicField` | firmware/components/nanopb/pb_decode.c:396-465 | wire type and data type must agree; the value is that of the payload |
| `Decoder.DecodeCallbackField` | firmware/components/nanopb/pb_decode.c:752-796 | a collecting callback receives each payload once, strings through a substream, scalars through a copy |
| `Decoder.DecodeField` | firmware/components/nanopb/pb_decode.c:467-555 | what one known field does to its member, by rule |
| `Decoder.FindField` | firmware/components/nanopb/pb_common.c:195-244 | the circular search finds the field with the tag iff there is one, and otherwise ends where it began |
| `Decoder.DecodeInner` | firmware/components/nanopb/pb_decode.c:990-1152 | on every input the loop ends, succeeds exactly when the body has a meaning, and then the message is that meaning and every byte is consumed |
| `Decoder.DecodeBuffer` | firmware/components/nanopb/pb_decode.c:1182-1194 | pb_decode computes exactly the reference meaning of the buffer over default contents |
| `Callbacks.DecodeCallback` | firmware/components/nanopb/pb_decode.c:752-796 | with any callback that returns and for any wire type: what makes the field fail, how often the callback is called, and the parent right behind the field |
| `Callbacks.CallbackLoop` | firmware/components/nanopb/pb_decode.c:752-779 | with any callback that returns, the loop ends; when all calls succeed the parent stands right behind the field whatever the callbacks left unread |
| `Callbacks.CallsBounded` | firmware/components/nanopb/pb_decode.c:765-773 | the callback is called at most once per payload byte, and not again once it makes no progress |
| `RoundTrip.ScalarRoundTrip` | firmware/components/nanopb/pb_decode.c:1425-1495 | every scalar is read back from its encoding whatever follows |
| `RoundTrip.ItemsRoundTrip` | firmware/components/nanopb/pb_decode.c:480-509 | a packed body is read back whole when the array has room |
| `RoundTrip.MessageRoundTrip` | firmware/components/nanopb/pb_encode.c:512-534 | decoding what was encoded gives back the message and consumes every byte, for any schema with ascending tags and any message that fits it |
| `Trimming.TrimMsgSame` | firmware/components/nanopb/pb_encode.c:877-928 | a message and its trimmed form, strings cut at the first zero byte, are sent as the same bytes |
| `Trimming.DecodeTrims` | firmware/components/nanopb/pb_decode.c:1537-1585 | every encodable message comes back trimmed |
| `Trimming.RoundTripExactly` | firmware/components/nanopb/pb_encode.c:905-920 | it comes back unchanged if and only if no struct member string holds a zero byte |
| `Algebra.UnknownFieldIgnored` | firmware/components/nanopb/pb_decode.c:1073-1076 | inserting any well-formed field with an unknown tag at a field boundary leaves the result unchanged |
| `Algebra.SwapIndependent` | firmware/components/nanopb/pb_decode.c:1016-1112 | swapping two adjacent fields of different members, not of one oneof, leaves the result unchanged, whether it is a message or a failure |
| `Algebra.LastOneWins` | firmware/components/nanopb/pb_decode.c:396-445 | a singular scalar occurring several times takes the last value |
| `Algebra.SubmessagesMerge` | firmware/components/nanopb/pb_decode.c:1584-1633 | in any body, two occurrences of a submessage field mean the same as one occurrence of their contents one after the other, accepted or not |
| `Algebra.MergeEncodable` | firmware/components/nanopb/pb_decode.c:467-555 | no input makes the decoder exceed an array or leave a string unterminated: what is decoded can be encoded |
| `Trimming.ReencodeFaithful` | firmware/components/nanopb/pb_decode.c:1182-1194 | whatever decodes can be encoded; decoding that gives the message trimmed, hence the same message iff no received struct member string holds a zero byte |
| `OnTheWire.EncodedKey` | firmware/components/nanopb/pb_encode.c:675-714 | an encoded field starts with the shortest varint of its tag times eight plus 5 for fixed 32-bit, 1 for fixed 64-bit, 2 for length-delimited and 0 for all other types |
| `OnTheWire.ScalarBytes` | firmware/components/nanopb/pb_encode.c:803-850 | the bytes of each scalar: varints of the value, of its 64-bit two's complement or of its zigzag number, and fixed-width values least significant byte first |
| `OnTheWire.DelimitedBytes` | firmware/components/nanopb/pb_encode.c:716-722 | strings, bytes and submessages: the varint of the length, then the contents, a struct string ending before its first zero byte |
| `OnTheWire.SlotTokens` | firmware/components/nanopb/pb_encode.c:418-462 | how often a field is sent: not at all when absent or a plain default, once when packed, once for each value otherwise |
| `OnTheWire.ZeroUnsent` | firmware/components/nanopb/pb_encode.c:244-330 | a plain proto3 field is left out iff it is 0, false, the empty byte array or the empty C string |
| `OnTheWire.FieldsRise` | firmware/components/nanopb/pb_encode.c:512-556 | a message is sent as fields whose tags never fall |
| `OnTheWire.SkippedField` | firmware/components/nanopb/pb_decode.c:308-318 | behind the key of an unknown field exactly four bytes are skipped for wire type 5, eight for 1, a varint for 0, a length and its bytes for 2; any other wire type and tag 0 are refused |
| `OnTheWire.ReceivedFixed` | firmware/components/nanopb/pb_decode.c:416-438 | a fixed field takes four bytes under wire type 5 or eight under 1, least significant first, and refuses anything else |
| `OnTheWire.ReceivedInteger` | firmware/components/nanopb/pb_decode.c:1425-1495 | an integer field takes, under wire type 0 only, a varint of at most 64 bits as two's complement or zigzag, iff its member of 8, 16, 32 or 64 bits holds the number |
| `OnTheWire.ReceivedBool` | firmware/components/nanopb/pb_decode.c:1420-1423 | a bool takes a varint under wire type 0: 0 is false, everything else true |
| `OnTheWire.ReceivedBytes` | firmware/components/nanopb/pb_decode.c:1497-1581 | a string or byte array takes a length and its bytes under wire type 2 iff they fit its member, with one byte for a terminator or two for a length |
| `OnTheWire.ReceivedItem` | firmware/components/nanopb/pb_decode.c:510-520 | a repeated scalar sent item by item goes to the end of its array, or is refused when the array is full |
| `OnTheWire.ReceivedPacked` | firmware/components/nanopb/pb_decode.c:479-508 | a packed array goes to the end of the array, or is refused when there is no room for all of it |
| `OnTheWire.EmptyBody` | firmware/components/nanopb/pb_decode.c:951-986 | what an empty body decodes to: 0, false, empty texts, submessages of such, and nothing in every other field |
| `Descriptor.PackRoundTrip` | firmware/components/nanopb/pb.h:761-799 | under the PB_FITS asserts an entry reads back as written iff a one-word entry has array size 1 and a four- or eight-word entry a size offset below 128 |
| `Descriptor.AssertsTooWeak` | firmware/components/nanopb/pb.h:786-799 | an array size of 0 and a size offset of 256 that pass the asserts and read back wrong |
| `Descriptor.PackKeepsTag` | firmware/components/nanopb/pb.h:761-799 | tag and type always read back |
| `Descriptor.PackLayout` | firmware/components/nanopb/pb.h:735-784 | the word and the bits at which each value of an entry stands, for every format |
| `Descriptor.TypeBits` | firmware/components/nanopb/pb.h:257-300 | the type byte: which low four bits mean submessage and extension, which of the others required and array |
| `Descriptor.EntryAt` | firmware/components/nanopb/pb_common.c:8-72 | the words of each field stand at its word offset, its submessage at its submessage index |
| `Descriptor.NextPlace` | firmware/components/nanopb/pb_common.c:136-152 | the first word of an entry alone gives the word, required-field and submessage positions of the next field |
| `Descriptor.FieldIter.Load` | firmware/components/nanopb/pb_common.c:8-119 | loading at a consistent position yields the values of that field, where its contents and its size member are, and its own submessage descriptor; past the last field it yields nothing |
| `Descriptor.FieldIter.constructor` | firmware/components/nanopb/pb_common.c:158-161 | a new iterator is all zero |
| `Descriptor.FieldIter.Begin` | firmware/components/nanopb/pb_common.c:156-164 | begin stands on the first field, and is false for a message without fields |
| `Descriptor.FieldIter.Advance` | firmware/components/nanopb/pb_common.c:122-154 | one step keeps all four indices consistent, wrapping to the first field at the end |
| `Descriptor.FieldIter.Next` | firmware/components/nanopb/pb_common.c:188-193 | stepping visits the fields in order and returns false exactly on returning to the first |
| `Descriptor.FieldIter.Probe` | firmware/components/nanopb/pb_common.c:218-237 | one turn of the search: the next field, matched exactly in spite of the six-bit fast check |
| `Descriptor.FindOnExtension` | firmware/components/nanopb/pb_common.c:197-200 | the tag of an extension is found by an iterator standing on it, and from elsewhere it is not |
| `Descriptor.FieldIter.Find` | firmware/components/nanopb/pb_common.c:195-244 | from any field the search ends, and is true iff the iterator already stood on the tag or a non-extension field has it; otherwise it is back where it was |
| `TableSearch.FindPacked` | firmware/components/nanopb/pb_common.c:195-244 | the search over packed words finds the field that the field list has for the tag, or none and stays |
| `Crc.UniCrc32Le` | firmware/components/bluepad32/uni_utils.c:9-22 | the two loops compute the register function and stay within 32 bits |
| `Crc.GeneratorReflected` | firmware/components/bluepad32/uni_utils.c:7 | the register constant is the generator x^32 + x^26 + x^23 + x^22 + x^16 + x^12 + x^11 + x^10 + x^8 + x^7 + x^5 + x^4 + x^2 + x + 1, reflected, without its leading term |
| `Crc.CrcIsRemainder` | firmware/components/bluepad32/uni_utils.c:9-22 | a polynomial is the remainder of seed times x^N plus message times x^32 modulo the generator of IEEE 802.3, given by its powers of x, iff it is the reflected register value |
| `Crc.RemainderUnique` | firmware/components/bluepad32/uni_utils.c:9-22 | division by the generator over GF(2) has one quotient and one remainder |
| `Crc.Crc32Concat` | firmware/components/bluepad32/uni_utils.c:9-22 | the checksum of a concatenation is the checksum of the second part seeded with that of the first |
| `Crc.SeedInjective` | firmware/components/bluepad32/uni_utils.c:9-22 | for fixed data different seeds give different checksums |
| `Crc.SeedSurjective` | firmware/components/bluepad32/uni_utils.c:9-22 | and every checksum has a seed |
| `Crc.ByteChangeDetected` | firmware/components/bluepad32/uni_utils.c:9-22 | changing one byte of the data always changes the checksum |
| `ControlMath.DeadzoneOdd` | firmware/main/control_math.hpp:18-23 | the dead zone is symmetric iff its radius is not negative |
| `ControlMath.DeadzoneShape` | firmware/main/control_math.hpp:18-23 | zero exactly inside the radius, then strictly increasing up to 1 at full stick |
| `ControlMath.DeadzoneLine` | firmware/main/control_math.hpp:18-23 | between its edge and full stick the dead zone puts out the share of the way travelled, on both sides |
| `ControlMath.RampBetween` | firmware/main/control_math.hpp:45-59 | whatever the rates, the command stays between where it is and where it goes |
| `ControlMath.RampProgress` | firmware/main/control_math.hpp:45-59 | away from the target every tick gets strictly closer |
| `ControlMath.RampCrossing` | firmware/main/control_math.hpp:47-55 | the command changes sign only on a reversal and only from within one tick of fall |
| `ControlMath.ReversalShare` | firmware/main/control_math.hpp:45-59 | the tick that ends a fall does no more than one tick of work iff the target is within what is left of the tick |
| `ControlMath.ReversalOverspends` | firmware/main/control_math.hpp:45-59 | an instance where it does more |
| `ControlMath.RampSettles` | firmware/main/control_math.hpp:45-59 | exactly on target after ceil(current / fall) plus ceil(target / rise) ticks |
| `ControlMath.MixBounded` | firmware/main/control_math.hpp:62-68 | no mixer output exceeds full scale |
| `ControlMath.MixMirror` | firmware/main/mixer.hpp:40-59 | turning the other way exchanges the wheels, for either mixer |
| `ControlMath.TurnsTowardStick` | firmware/main/control_math.hpp:62-68 | the wheel away from the stick gets more, both the same straight ahead |
| `ControlMath.WheelsSplit` | firmware/main/control_math.hpp:62-68 | unless a wheel saturates, the wheels' sum is twice the throttle and their difference twice the turn times the gain |
| `ControlMath.MixTypes` | firmware/main/mixer.hpp:32-70 | type 1 bends both axes by (1-e)x + ex^3 before mixing, any other number mixes linearly |
| `ControlMath.ExpoShape` | firmware/main/mixer.hpp:31-37 | endpoints exact, between zero and the stick, linear at 0 and cubic at 1 |
| `SquareMap.Stretches` | firmware/main/control_math.hpp:73-83 | outside the core a disc point moves outward along its ray, unclamped, and its larger coordinate becomes its Euclidean norm |
| `SquareMap.DiscToSquare` | firmware/main/control_math.hpp:73-83 | the disc is sent into the square |
| `SquareMap.AlwaysInSquare` | firmware/main/control_math.hpp:73-83 | whatever goes in, the result is in the square |
| `SquareMap.Injective` | firmware/main/control_math.hpp:73-83 | no two stick positions give the same command |
| `SquareMap.ReachedExactly` | firmware/main/control_math.hpp:73-83 | the square points reached: the core, and exactly those whose squared larger coordinate exceeds 1e-3 times their norm |
| `SquareMap.CornersReached` | firmware/main/control_math.hpp:70-83 | in particular every square point with larger coordinate above sqrt(2) times 1e-3, the corners included |
| `Controller.KartController.constructor` | firmware/main/controller_core.hpp:77-114 | a controller starts disarmed with empty ramp memories |
| `Controller.KartController.PressStart` | firmware/main/controller_core.cpp:60-88 | what the Stop causes and a START press do to the arming state |
| `Controller.KartController.Drive` | firmware/main/controller_core.cpp:97-130 | targets, ramps and brake mode of an armed tick with A held |
| `Controller.KartController.Command` | firmware/main/controller_core.cpp:60-137 | the tick up to the motor commands, ramp memories cleared when braking |
| `Controller.KartController.Step` | firmware/main/controller_core.cpp:36-165 | new state, channel outputs and telemetry of a whole tick |
| `Controller.EspController.TickOnce` | firmware/main/controller.cpp:78-99 | one tick of the host, pushing the arming edges |
| `ControlRuns.ControlTask` | firmware/main/controller.cpp:122-131 | any number of ticks leave the state and the pushed events of the run |
| `ControlRuns.DeadMan` | firmware/main/controller_core.cpp:43-61 | a tick that does not brake has a connected, calibrated, fresh pad with no stop pressed, A held, and an earlier arming since which the kart stayed armed after every tick and no tick was blocking |
| `ControlRuns.BrakesExactly` | firmware/main/controller_core.cpp:97-139 | a tick brakes iff it is not armed, A is released, or the idle stick has run both commands down to 1e-4 |
| `ControlRuns.BrakingForgets` | firmware/main/controller_core.cpp:131-137 | a braking tick leaves both ramp memories at 0 and reports at most the residue of 1e-4 |
| `ControlRuns.ResidueExactly` | firmware/main/controller_core.cpp:116-146 | a braking tick reports 0 on both channels iff it is not driving, the fall is unlimited, or both ramp memories were within one fall of 0 |
| `ControlRuns.ResidueRun` | firmware/main/controller_core.cpp:116-146 | a run of four ticks from power-up that ends in a braking tick reporting a residue |
| `ControlRuns.CommandBounded` | firmware/main/controller_core.cpp:139-148 | no channel command ever exceeds 1, and the cap stays within the PWM range |
| `ControlRuns.RecentlyActive` | firmware/main/controller_core.cpp:150-151 | armed at the end of a tick means armed or driven within disarm_s of it |
| `ControlRuns.ArmingNeedsHold` | firmware/main/controller_core.cpp:66-83 | arming rises only on an unblocked tick with both stick axes within 0.08 of the centre, closing an uninterrupted START press of more than arm_hold_ms |
| `ControlRuns.OneTogglePerPress` | firmware/main/controller_core.cpp:67-88 | one press toggles at most once |
| `ControlRuns.EventsAlternate` | firmware/main/controller.cpp:97-99 | the pushed events are Arm, Disarm, Arm and so on, the last telling whether the kart is armed |
| `ControlRuns.DisarmCause` | firmware/main/controller.cpp:92-98 | each Disarm carries the Stop cause of the tick that disarmed |
| `ControlLaws.DisarmMeans` | firmware/main/controller_core.cpp:34-60 | which condition of the pad each cause of a logged Disarm stands for, priority included: not connected, silent for more than 750 ms, stop pressed, not calibrated, or none of these |
| `ControlLaws.ArmedExactly` | firmware/main/controller_core.cpp:62-90 | a tick is armed iff nothing is in the way and either it completes a START press of more than arm_hold_ms (counted from the ticks of the run) with the kart disarmed and the stick centred, or it completes none and the kart was armed |
| `ControlLaws.HoldDisarms` | firmware/main/controller_core.cpp:68-83 | the tick that completes a START press on an armed kart brakes, leaves it disarmed and logs one Disarm, without a cause if nothing was in the way |
| `ControlLaws.ArmedAfterExactly` | firmware/main/controller_core.cpp:150-151 | a tick ends armed iff it was armed and the latest arming or driving tick is not more than disarm_s ago |
| `ControlLaws.IdleExactly` | firmware/main/controller_core.cpp:104-106 | the stick is idle iff both axes leave the dead zone by less than a thousandth of the way to full stick |
| `ControlLaws.ChannelsExactly` | firmware/main/controller_core.cpp:140-148 | each channel gets the command of the wheel wired to it, negated iff that wheel is inverted, and the ceiling is floor(4095 x duty cap) with the cap kept within 0 and 1 |
| `ControlLaws.RateExactly` | firmware/main/controller_core.cpp:113-118 | a ramp rate times the ceiling in force, 5 percent at least, is the configured percentage a second |
| `ControlLaws.TelemetryMeans` | firmware/main/controller_core.cpp:153-162 | what each telemetry value says of the tick |
| `ControlRuns.MirrorSymmetry` | firmware/main/controller_core.cpp:97-148 | negating the stick x, exchanging the inversions and flipping the swap gives the same channel outputs, braking and arming at every tick of every run |
| `ControlRuns.RealDutySlope` | firmware/main/controller_core.cpp:113-120 | a driving tick moves the applied duty at accel_pct_s and decel_pct_s percent per second whatever duty_cap in [0.05, 1] is |
| `ControlRuns.HeldStickSettles` | firmware/main/controller_core.cpp:113-120 | over any stretch of ticks with the stick held still, each wheel command reaches the mixed stick exactly, in the ticks the rates say |
| `ControlRuns.Freewheel` | firmware/main/controller_core.cpp:102-137 | with A held and the stick let go, the n-th idle tick brakes iff n falls bring both commands within the threshold, or the fall is unlimited |
| `ControlRuns.FreewheelEnds` | firmware/main/controller_core.cpp:113-137 | after the larger of the two ceilings of ticks the kart brakes and both commands are 0 |
| `Journal.MadeValid` | firmware/main/evlog.cpp:42-50 | a record as written passes its own validity test and names its event code and boot number |
| `Journal.MadeCarries` | firmware/main/evlog.cpp:80-83 | the four words of a record: 0xEB, code and boot number, the time, the data, and a check word with which they xor to 0xA5A5A5A5 |
| `Journal.ProgramClears` | firmware/main/evlog.cpp:64 | programming sets a bit iff it was set and is set in the word written, and touches no other word |
| `Journal.EventLog.FlashAppend` | firmware/main/evlog.cpp:54-65 | append, restart when full, and every way the flash can fail or the power be cut in between |
| `Journal.EventLog.ScanSlots` | firmware/main/evlog.cpp:126-139 | the scan finds the first slot that is blank or cannot be read, and the highest boot number before it |
| `Journal.EventLog.Init` | firmware/main/evlog.cpp:113-152 | boot: scan, next boot number, boot record, with reads, erasure and programming that may fail |
| `Journal.EventLog.ReadAt` | firmware/main/evlog.cpp:179-193 | reading a stretch of the journal up to the first slot that cannot be read, torn records skipped |
| `Journal.ReadEndExactly` | firmware/main/evlog.cpp:185-188 | which slots a read goes over: from its index on, as many as asked for, short of the append point and of an unreadable slot |
| `Journal.EventLog.ClearAll` | firmware/main/evlog.cpp:195-215 | refused while armed; otherwise erase and start the file again |
| `Journal.BootSurvives` | firmware/main/evlog.cpp:126-151 | however the boot record's own erase and write end, the journal survives a boot iff no slot read fails before the end of the log, or the power failed before the first word went into a log with room, or a full log's erase failed and its last slot absorbed the record without changing a bit |
| `JournalRuns.CrashSafe` | firmware/main/evlog.cpp:54-65 | over any life of boots, pushes, drains, clears, write and erase failures and power cuts after any programmed word, the flash is the image of the log, used slots and then only blank ones, and while powered the append point is its end |
| `JournalRuns.ScanAnyTime` | firmware/main/evlog.cpp:126-140 | a boot scan at any moment stops exactly at the end of the log |
| `JournalRuns.PushHistory` | firmware/main/evlog.cpp:154-164 | the push history is what the ring accepted while powered, each push with the boot number of its time |
| `JournalRuns.ReadAnyTime` | firmware/main/evlog.cpp:179-193 | at any moment of any life, every record read back shows the event code, boot number, time and data of the boot or the push it came from, but for the one undetected corruption of the data; pushes come in the order they were made and none twice; no record written whole is left out |
| `JournalRuns.ExecExtends` | firmware/main/evlog.cpp:54-65 | every operation that does not erase the partition leaves each entry, and the push it came from, where it was |
| `JournalRuns.DrainedStays` | firmware/main/evlog.cpp:68-92 | a batch the flash took is on it in order, each record with the code, boot number, time and data of its push, and readAt delivers it at any later moment of any life until something erases the partition |
| `JournalTask.Live` | firmware/main/evlog.cpp:113-164 | the driver and the ring, taken through any operations from a fresh partition, hold the flash, the append point and the waiting records of that life |
| `JournalRuns.BootsIncrease` | firmware/main/evlog.cpp:126-141 | every boot takes a number above all valid ones on flash, short of the 16-bit wrap |
| `JournalRuns.BootNumber` | firmware/main/evlog.cpp:126-141 | the number taken is the highest boot number of a valid record plus one, 1 if there is none, modulo 65536 |
| `JournalRuns.BootOrigins` | firmware/main/evlog.cpp:145-151 | every boot record of the journal was logged by a power-up or clear of this life, with its uptime, reset reason and boot number |
| `JournalRuns.BootStays` | firmware/main/evlog.cpp:145-151 | a boot record the flash took is on it word for word, at the end of the journal or the start of a new one, at any later moment until something erases the partition |
| `Journal.TornAccepted` | firmware/main/evlog.cpp:47-50 | a slot reads as valid iff it equals the full record, or was cut after two words of a record with head xor t_ms equal to 0xA5A5A5A5 |
| `EvLog.EventRing.PushEvent` | firmware/main/evlog.cpp:154-164 | a push appends to the waiting records, or drops the event exactly when 32 are waiting |
| `EvLog.EventRing.TakeBatch` | firmware/main/evlog.cpp:74-86 | the copying loop takes the oldest waiting records, at most 16 |
| `EvLog.EventRing.DrainBatch` | firmware/main/evlog.cpp:72-91 | one batch is appended to the journal and released even if the flash refused it |
| `EvLog.EventRing.DrainLocked` | firmware/main/evlog.cpp:68-92 | everything waiting goes to the journal in order, in batches; unless the power fails the ring is empty afterwards |
| `Ring.Fifo` | firmware/main/evlog.cpp:154-164 | under every interleaving of single steps and across index wraps the ring is a queue of at most 32 holding the accepted records in order |
| `Ring.NoOverwrite` | firmware/main/evlog.cpp:158-163 | no step changes a slot holding an unreleased record |
| `Ring.RefusedExactly` | firmware/main/evlog.cpp:157-158 | in any interleaving a push is dropped iff 32 records are waiting when it reads m_tail |
| `Ring.AtMostOnce` | firmware/main/evlog.cpp:68-92 | the records given to the flash are accepted pushes, unaltered, in push order and none twice |
| `Ring.ExactlyOnce` | firmware/main/evlog.cpp:68-92 | if flash never fails, it has been given exactly the accepted pushes handled so far |
| `Ring.DrainEmpties` | firmware/main/evlog.cpp:72-91 | in any interleaving, a drain that comes to rest has released everything accepted when it last read m_head |
| `Ring.LateArrival` | firmware/main/evlog.cpp:72-91 | a run in which a later push stays behind |
| `ReplyGuard.KartConfig.ClampAll` | firmware/main/config_params.cpp:100-107 | every field ends within its bounds, fields already within are untouched, others take the nearer bound |
| `ReplyGuard.KartConfig.Snapshot` | firmware/main/config_params.cpp:79-82 | the values of all parameters, as cfgGet widens them |
| `ReplyGuard.KartConfig.Set` | firmware/main/config_params.cpp:83-87 | one field set, rounded for integer parameters, the others untouched |
| `ReplyGuard.RoundNearest` | firmware/main/config_params.cpp:86 | rounding goes to the nearest whole number, and from half way away from zero |
| `ReplyGuard.KartConfig.constructor` | firmware/main/config_params.cpp:92-98 | defaults |
| `ReplyGuard.ClampedTame` | firmware/main/config_params.cpp:125-133 | clamped values of a row with non-negative bounds meet what the guard takes for granted |
| `ReplyGuard.ConfigPbBytes` | firmware/main/config_params.cpp:135-140 | the loop sums the bounds of the table |
| `ReplyGuard.GuardFormula` | firmware/main/config_params.cpp:125-140 | the bound is the length of all texts plus 43 bytes a parameter |
| `ReplyGuard.GuardSound` | firmware/main/config_params.cpp:125-147 | with at least one parameter, names under 128 bytes and no negative integer, the whole encoded reply takes at most configPbBytes |
| `ReplyGuard.ClampAndReply` | firmware/main/webserver.cpp:381-389 | under the compile-time check, any configuration once clamped gives a config reply that fits the arena, and encoding succeeds |
| `ReplyGuard.ReplyDecodes` | firmware/main/webserver.cpp:360-389 | decoding the reply gives back the message that was built |
| `ReplyContents.ReplyShows` | firmware/main/webserver.cpp:335-389 | what the page decodes, by tag: the four texts under 1 to 4; under 8, 11, 14 and 17 of a bool row 1 iff value, minimum, maximum and default are not 0; under 9, 12, 15 and 18 of an int row the number, under 10, 13, 16 and 19 of a float row its pattern; all rows in order |
| `ReplyContents.TagTypes` | firmware/main/proto/kart.proto:73-85 | the type behind each tag of a parameter |
| `ReplyContents.AnswerGetConfig` | firmware/main/webserver.cpp:381-389 | from any configuration, once clamped, to a reply in the arena from which the page decodes that table |
| `ReplyGuard.NegativeBreaksGuard` | firmware/main/config_params.cpp:125-133 | a parameter with negative values exceeds its bound, whatever its texts |
| `ReplyGuard.EmptyTable` | firmware/main/config_params.cpp:135-140 | an empty table exceeds the bound by its envelope |

## Left out

- nanopb extensions, pointer fields and `PB_ENABLE_MALLOC`, fixed-length bytes, fixed-count arrays, REQUIRED fields in messages, UTF-8 validation, double/float conversion: the kart schema uses none of them.
- nanopb custom stream callbacks, default-value streams, delimited and null-terminated top-level modes, error strings.
- Decoder.DecodeCallbackField: covers collecting callbacks of strings, bytes and submessages, the ones the schema has; any callback and any wire type, but not what the callback makes of the bytes, is `Callbacks.DecodeCallback`.
- Descriptor.FieldIter.Load: keeps `pField` and `pSize` as offsets in the message; `pData` equals `pField`, pointer fields being left out.
- Input buffers are immutable sequences, struct members are values: no aliasing between a message and a stream.
- Encoding callbacks are modelled as suppliers of a fixed list of values, the same in both passes; decoding callbacks as collectors in `Decoder` and as arbitrary byte takers in `Callbacks`.
- Trimming.IsDefaultTrimmed: a callback field is a list of supplied values, so a callback that is set but supplies none counts as default here and as not default in `firmware/components/nanopb/pb_encode.c:341-352`; an enclosing singular submessage is then sent by the code with length 0.
- Decoder.FindField: searches the list of fields; the search over packed words is `TableSearch.FindPacked`, with the same contract.
- Encoder.Encode: does not model wrap-around of `size_t` beyond 2^32 bytes.
- Rounding: control arithmetic is over the reals, floats on the wire are opaque 32-bit patterns, the square root is exact.
- The integer time stamps of the controller do not wrap.
- Mutexes of KartController: a tick is one atomic step.
- Ring.Fifo: interleaves single loads and stores in sequentially consistent order; weaker hardware orders are covered only as far as the acquire and release pairs forbid them.
- JournalRuns.BootsIncrease: excludes the wrap of the 16-bit boot counter, where the code promises nothing.
- JournalRuns.CrashSafe: a flash write that reports failure is taken to have programmed nothing, the code has no defence if it did; and a scan cut short by a failing read is excluded: `Journal.BootSurvives` shows it false there, but for two cases.
- An erase interrupted half way, and flash writes while the status mutex is busy.
- JournalRuns.ReadAnyTime: pushes and batches are whole operations there; their single steps interleave in `Ring`, and the two machines are not composed.
- The encoding of the other web replies, the log pages among them: same encoder, smaller bounds.
- LED settings, loop timing peaks, rumble, publishing of telemetry, Bluetooth, Wi-Fi, HTTP, OTA, NVS, audio, drivers, and the physical simulation.
