# Protocol Buffers field types and enums, modelled in Dafny

This project models the behaviour that the Ruby `protobuf` gem
(fritzvl/protobuf) promises in two RSpec suites:

- `spec/functional/types_spec.rb` covers the scalar field types of
  `Test::Types::TestTypes`. It checks which Ruby values each field kind
  accepts, which it rejects with `TypeError` or `RangeError`, the varint
  encoding of 300, and that a message written with `serialize_to_string`
  reads back unchanged with `parse_from_string`.
- `spec/lib/protobuf/message/enum_spec.rb` covers `Protobuf::EnumValue`
  (name, value, `to_s`, `==` with Integers, `+`) and assignment to the enum
  field `Tutorial::Person::PhoneNumber#type`.

The Ruby implementation behind these suites is not part of this model.
So the model is behavioural: it defines the operations the suites
exercise and proves what the suites assert, in general and for their
concrete values. Wire details the suites depend on follow the Protocol
Buffers encoding guide:

- "Base 128 Varints": low 7-bit group first, 0x80 as the continuation bit,
  at most 10 bytes.
- "Signed Integers": two's complement for int32, int64 and enum. ZigZag for
  sint32 and sint64. Little-endian words for fixed32, fixed64, sfixed32 and
  sfixed64.
- "Message Structure": a tag is `(field_number << 3) | wire_type`, with
  wire types VARINT 0, I64 1, LEN 2 and I32 5.

Modules, one per component:

- `Common` (common.dfy): bytes as `int`s in 0..255, the error kinds, and
  `Option`/`Result`.
- `Varint` (varint.dfy): the base-128 varint codec.
- `Integers` (integers.dfy): two's-complement reinterpretation and ZigZag.
- `FixedWidth` (fixed.dfy): little-endian fixed-width words.
- `Enums` (enums.dfy): enum descriptors, `EnumValue`, Ruby's `==` between
  EnumValues and Integers, and `+`.
- `Fields` (fields.dfy): the field kinds and the assignment gate
  (`TypeError` before `RangeError`). Also the per-kind payload encoding and
  decoding.
- `Messages` (messages.dfy): a field table and a message as a map from
  field number to state, plus field assignment, reading, `serialize` and
  `parse`.
- `Scenarios` (scenarios.dfy): each example of the two suites, stated over
  the model.

A Ruby value handed to a setter is an `Input`: an Integer, a Float
(an uninterpreted token), a String as its bytes, `true`/`false`, `nil`, a
Symbol, an EnumValue, or an Array. A stored field holds a `Value`.

## Model

| member | source | states |
|---|---|---|
| `Varint.Encode` | spec/functional/types_spec.rb:210-212 | the encoding is a well-terminated group sequence (continuation bit on every byte but the last) whose base-128 value is the input |
| `Varint.Decode` | spec/functional/types_spec.rb:25-28 | a decoded varint consumes between 1 and 10 bytes, a well-terminated prefix whose group value is the result; it fails, always with MalformedVarint, exactly when every one of the first ten bytes (all of them, if fewer) carries the continuation bit |
| `Varint.DecodeGroups` | spec/functional/types_spec.rb:25-28 | the group reader with a byte budget: success consumes a well-terminated prefix within the budget and returns its group value; failure happens exactly when every byte within the budget carries the continuation bit |
| `Varint.UnterminatedBytes` | spec/functional/types_spec.rb:25-28 | the failure condition of the group reader holds exactly when every byte within the budget carries the continuation bit, however few bytes there are |
| `Varint.DecodeWellTerminated` | spec/functional/types_spec.rb:25-28 | any complete varint within the budget, whatever follows it, reads back as its group value and consumes exactly its bytes |
| `Varint.RoundTrip` | spec/functional/types_spec.rb:7-46 | decoding the encoding of any value below 2^64, followed by any bytes, gives the value back and consumes exactly the encoding |
| `Varint.EncodeLengthBound` | spec/functional/types_spec.rb:210-212 | a value below 128^k encodes in at most k bytes |
| `Varint.EncodeFitsTenBytes` | spec/functional/types_spec.rb:48-87 | every 64-bit value, including the two's-complement image of a negative int64, fits the 10-byte limit |
| `Varint.DecodeGroupsEncode` | spec/functional/types_spec.rb:25-28 | the group decoder reads back any encoding within its byte budget, whatever follows it |
| `Varint.EncodeInjective` | spec/functional/types_spec.rb:210-212 | distinct values have distinct encodings |
| `Varint.OverlongFails` | spec/functional/types_spec.rb:25-28 | ten continuation bytes in a row are MalformedVarint |
| `Varint.Encode300` | spec/functional/types_spec.rb:210-212 | 300 encodes as exactly 0xAC 0x02 |
| `Integers.ToUnsigned` | spec/functional/types_spec.rb:48-56 | the word holding a signed value lies below the word size and is in the lower half exactly when the value is non-negative |
| `Integers.ToSigned` | spec/functional/types_spec.rb:71-77 | reading a word as signed gives a value in the signed range, non-negative exactly when the word is in the lower half |
| `Integers.SignedRoundTrip` | spec/functional/types_spec.rb:48-87 | signed to unsigned and back is the identity on the signed range |
| `Integers.UnsignedRoundTrip` | spec/functional/types_spec.rb:48-87 | unsigned to signed and back is the identity on the word |
| `Integers.Int32ThroughInt64` | spec/functional/types_spec.rb:48-51 | a negative int32 written as a 64-bit pattern and cut back to 32 bits is unchanged |
| `Integers.ZigZagEncode` | spec/functional/types_spec.rb:55-56 | ZigZag images of non-negative values are exactly the even numbers |
| `Integers.ZigZagDecode` | spec/functional/types_spec.rb:76-77 | decoding gives a non-negative value exactly for even inputs |
| `Integers.ZigZagRoundTrip` | spec/functional/types_spec.rb:48-87 | ZigZag decode inverts ZigZag encode for every integer |
| `Integers.ZigZagInverseRoundTrip` | spec/functional/types_spec.rb:48-87 | ZigZag encode inverts ZigZag decode for every natural |
| `Integers.ZigZagRange` | spec/functional/types_spec.rb:151-163 | a value is in a word's signed range exactly when its ZigZag image fits the word |
| `Integers.ZigZagExamples` | spec/functional/types_spec.rb:55-56 | ZigZag maps 0, -1, 1, -2 to 0, 1, 2, 3, and the int32 extremes 2^31 - 1 and -2^31 to 2^32 - 2 and 2^32 - 1 |
| `FixedWidth.WordSizes` | spec/functional/types_spec.rb:165-183 | 4 bytes hold 2^32 values and 8 bytes hold 2^64 |
| `FixedWidth.Decode` | spec/functional/types_spec.rb:7-46 | a little-endian word of k bytes reads as a value below 256^k |
| `FixedWidth.Encode` | spec/functional/types_spec.rb:7-46 | encoding into a width gives exactly that many bytes, and they decode to the value |
| `FixedWidth.EncodeDecode` | spec/functional/types_spec.rb:48-87 | re-encoding the value of any byte word at its width gives the same bytes |
| `Enums.IndexOfValue` | spec/lib/protobuf/message/enum_spec.rb:29-34 | finds the first member with a value, or reports none when no member has it |
| `Enums.IndexOfName` | spec/lib/protobuf/message/enum_spec.rb:36-41 | finds the first member with a name, or reports none when no member has it |
| `Enums.ByValue` | spec/lib/protobuf/message/enum_spec.rb:29-34 | the enum's value for an integer is one of its members with that value; none exactly when no member has it |
| `Enums.ByName` | spec/lib/protobuf/message/enum_spec.rb:36-41 | the enum's value for a symbol is one of its members with that name; none exactly when no member has it |
| `Enums.LookupsAgree` | spec/lib/protobuf/message/enum_spec.rb:29-48 | in a well-formed enum, lookup by value and lookup by name find the same member |
| `Enums.MemberIsCanonical` | spec/lib/protobuf/message/enum_spec.rb:43-48 | a member is what lookup by its own value returns |
| `Enums.MemberInRange` | spec/lib/protobuf/message/enum_spec.rb:29-34 | every member of a well-formed enum has a value in the int32 range |
| `Enums.DefaultValue` | spec/lib/protobuf/message/enum_spec.rb:27 | an unset enum field reads as a member of its enum |
| `Enums.Equals` | spec/lib/protobuf/message/enum_spec.rb:75-91 | `==` holds exactly when the integer values agree, for every mix of EnumValue and Integer operands |
| `Enums.EqualsSymmetric` | spec/lib/protobuf/message/enum_spec.rb:17-18 | `a == b` and `b == a` agree, including `100 == ev` and `ev == 100` |
| `Enums.EqualsTransitive` | spec/lib/protobuf/message/enum_spec.rb:29-34 | an assigned value equal to HOME, with HOME equal to 1, is itself equal to 1 |
| `Enums.Plus` | spec/lib/protobuf/message/enum_spec.rb:19-20 | `ev + k` is a plain Integer that, less k, equals ev |
| `Fields.AdmitEnum` | spec/lib/protobuf/message/enum_spec.rb:29-72 | an accepted enum input becomes a member with the given value, name or EnumValue's value; an EnumValue of another enum, and every other failure, is TypeError |
| `Fields.Admit` | spec/functional/types_spec.rb:107-208 | an accepted input is of a Ruby class the kind takes and is stored within the kind's bounds; failures are TypeError or RangeError, and RangeError only for an Integer given to an integer kind |
| `Fields.Coerce` | spec/functional/types_spec.rb:185-208 | nil clears exactly the bool, string and bytes fields; anything stored is valid for the kind; failures are TypeError or RangeError |
| `Fields.TypeGate` | spec/functional/types_spec.rb:123-183 | an input of a class the kind does not take is TypeError before any range check; for non-enum kinds that is the only source of TypeError |
| `Fields.RangeGate` | spec/functional/types_spec.rb:137-149 | an Integer given to an integer kind is RangeError exactly when it lies outside the kind's min..max, and is stored unchanged otherwise |
| `Fields.BoundaryAcceptance` | spec/functional/types_spec.rb:165-183 | every integer kind accepts its min and its max and rejects max + 1 and min - 1 with RangeError |
| `Fields.MinusOneSplitsSignedness` | spec/functional/types_spec.rb:123-163 | -1 is RangeError for the unsigned kinds and stored for the signed ones; 1 is stored by every integer kind |
| `Fields.BoundsAreWords` | spec/functional/types_spec.rb:165-183 | the bounds of each integer kind are exactly the signed or unsigned range of its 32- or 64-bit word |
| `Fields.EnumAssignmentNormalises` | spec/lib/protobuf/message/enum_spec.rb:29-48 | a member's integer, its symbol and the member itself all store that same member |
| `Fields.EnumAssignmentRejects` | spec/lib/protobuf/message/enum_spec.rb:50-72 | an integer with no member, an unknown symbol, an EnumValue of another enum, or any other class is TypeError |
| `Fields.ReassignIsIdentity` | spec/functional/types_spec.rb:123-208 | assigning a stored value back to its field stores it unchanged |
| `Fields.Default` | spec/lib/protobuf/message/enum_spec.rb:27 | the value an unset singular field reads as is valid for its kind |
| `Fields.EncodeValue` | spec/functional/types_spec.rb:25 | a payload is never empty: a varint kind writes one well-terminated varint, a fixed32-wire kind exactly 4 bytes, a fixed64-wire kind exactly 8, and a string or bytes field ends with its bytes unchanged |
| `Fields.LengthPrefixed` | spec/functional/types_spec.rb:41-43 | a string or bytes payload ends with the bytes themselves, and its front decodes as a varint giving their length, with exactly those bytes after it |
| `Fields.DecodeWord` | spec/functional/types_spec.rb:25-28 | reading a fixed word consumes exactly its width and fails exactly when fewer bytes remain |
| `Fields.DecodeValue` | spec/functional/types_spec.rb:25-28 | decoding a payload consumes at least one byte and no more than the input holds; it fails only with MalformedVarint or MalformedField |
| `Fields.DecodeFixed32` | spec/functional/types_spec.rb:25-28 | a 4-byte word reads as an Integer in the sfixed32 signed range or the fixed32 unsigned range, consuming 4 bytes; it fails, with MalformedField, exactly when fewer than 4 bytes remain |
| `Fields.DecodeFixed64` | spec/functional/types_spec.rb:25-28 | an 8-byte word reads as an Integer in the sfixed64 signed range or the fixed64 unsigned range, consuming 8 bytes; it fails, with MalformedField, exactly when fewer than 8 bytes remain |
| `Fields.DecodeLengthDelimited` | spec/functional/types_spec.rb:25-28 | a string or bytes payload reads as exactly the bytes its varint length prefix counts, taken right after the prefix; it fails exactly when the prefix is malformed or counts more bytes than remain |
| `Fields.DecodeVarintValue` | spec/functional/types_spec.rb:25-28 | a varint payload consumes between 1 and all of the remaining bytes and fails only with MalformedVarint |
| `Fields.VarintInput` | spec/functional/types_spec.rb:48-56 | the raw number of a varint payload becomes true/false for bool and otherwise an Integer within the bounds of the kind; an enum number lies in the int32 range |
| `Fields.VarintInputLowBits` | spec/functional/types_spec.rb:51-56 | for the integer and enum kinds only the low 64 bits of a varint count, and only the low 32 bits for the 32-bit kinds and enum |
| `Fields.DecodedAdmitted` | spec/functional/types_spec.rb:25-28 | whatever the decoder reads for a kind other than enum passes that kind's setter |
| `Fields.VarintRoundTrip` | spec/functional/types_spec.rb:7-46 | a varint payload decodes to the input its kind makes of the raw number |
| `Fields.WordRoundTrip` | spec/functional/types_spec.rb:7-46 | a fixed word decodes back to its number whatever follows it |
| `Fields.VarintPayload` | spec/functional/types_spec.rb:48-87 | every varint-kind value is written as a 64-bit raw number that decodes back to that value's input |
| `Fields.TwosComplementPayload` | spec/functional/types_spec.rb:51-52 | int32 and int64 write the value modulo 2^64 as a varint, from which the value is recovered |
| `Fields.ZigZagPayload` | spec/functional/types_spec.rb:55-56 | sint32 and sint64 write the ZigZag image of the value, below 2^32 for sint32, from which the value is recovered |
| `Fields.EnumPayload` | spec/lib/protobuf/message/enum_spec.rb:29-34 | an enum field writes its member's value modulo 2^64 as a varint, from which the value is recovered |
| `Fields.PlainPayload` | spec/functional/types_spec.rb:53-54 | uint32 and uint64 write the value itself and bool writes 0 or 1, each read back as the same input |
| `Fields.WordModulo` | spec/functional/types_spec.rb:51-52 | the 64-bit two's-complement pattern of a signed value is that value modulo 2^64 |
| `Fields.WireExamples` | spec/functional/types_spec.rb:51-57 | an int32 -1 is the ten bytes FF FF FF FF FF FF FF FF FF 01, an sint32 -1 is the single byte 01, and a fixed32 1 is 01 00 00 00 |
| `Fields.VarintKindRoundTrip` | spec/functional/types_spec.rb:7-87 | every varint-kind value decodes back, consuming exactly its payload |
| `Fields.FixedKindRoundTrip` | spec/functional/types_spec.rb:7-87 | every fixed32, sfixed32, fixed64 and sfixed64 value decodes back from its 4 or 8 bytes |
| `Fields.BytesRoundTrip` | spec/functional/types_spec.rb:41-43 | a length-prefixed string or bytes payload decodes to the same bytes, length preserved |
| `Fields.ValueRoundTrip` | spec/functional/types_spec.rb:7-87 | the payload of any valid value of any wire kind is non-empty and decodes back to that value's input |
| `Fields.WireInputAdmitted` | spec/functional/types_spec.rb:25-46 | the input decoded from a stored value passes the assignment gate as that same value |
| `Messages.Lookup` | spec/functional/types_spec.rb:25-28 | the descriptor found for a number is in the table with that number; none exactly when the table has no such field |
| `Messages.LookupFinds` | spec/functional/types_spec.rb:25-28 | in a table with unique numbers, a field's number finds that field |
| `Messages.Assign` | spec/functional/types_spec.rb:123-208 | assignment changes only the assigned field, leaves it in a state its label and kind allow, and fails for a singular field exactly when the gate fails |
| `Messages.Get` | spec/lib/protobuf/message/enum_spec.rb:27 | a singular field reads as a valid value, a repeated field as a sequence of valid values |
| `Messages.AssignKeepsValid` | spec/lib/protobuf/message/enum_spec.rb:29-48 | assignment keeps a message valid for its table |
| `Messages.GetAfterAssign` | spec/lib/protobuf/message/enum_spec.rb:29-48 | after assignment the field reads as the gated value, or as the default after nil |
| `Messages.Tag` | spec/functional/types_spec.rb:25-28 | a tag splits back into its field number (tag >> 3) and wire code (tag & 7) |
| `Fields.WireCode` | spec/functional/types_spec.rb:25-28 | the number of a wire type fits the three low bits of a tag |
| `Messages.TagFits` | spec/functional/types_spec.rb:25-28 | the tag of any field number up to 2^29 - 1 fits a 64-bit varint |
| `Messages.Record` | spec/functional/types_spec.rb:25 | a record is at least two bytes and starts with a varint whose value is the field's tag |
| `Messages.Record150` | spec/functional/types_spec.rb:25 | field 1 of kind uint32 holding 150 is written as 08 96 01 |
| `Messages.FieldBytes` | spec/functional/types_spec.rb:25 | a field contributes no bytes exactly when it is unset |
| `Messages.SerializeFields` | spec/functional/types_spec.rb:25 | writing the fields fails exactly when a required field is unset, and then with EncodingError |
| `Messages.Serialize` | spec/functional/types_spec.rb:25 | serialize fails exactly when a required field is unset, and then with EncodingError |
| `Messages.SkipLength` | spec/functional/types_spec.rb:28 | skipping an unknown field never passes the end of the input and fails only with MalformedVarint or MalformedField |
| `Messages.Store` | spec/functional/types_spec.rb:28 | storing a parsed value sets a singular field to that value and appends it to a repeated field's values, and leaves every other field as it was |
| `Messages.StoreKeepsValid` | spec/functional/types_spec.rb:28 | storing a valid value keeps a message valid |
| `Messages.ReadRecord` | spec/functional/types_spec.rb:28 | reading one record consumes between 1 and all of the remaining bytes; a value read belongs to a field of the table and is valid for it; a failure is one of the parse errors |
| `Messages.ReadKnown` | spec/functional/types_spec.rb:28 | a known field's payload under the wrong wire code is WireTypeMismatch; a value read is valid for the field; TypeError comes only from an enum field |
| `Messages.ReadRecordTypeError` | spec/functional/types_spec.rb:28 | a record is refused with TypeError only when its tag names an enum field of the table |
| `Messages.ParseFields` | spec/functional/types_spec.rb:28 | parsing into a valid message gives a valid message; a failure is one of the parse errors, and TypeError only when the table has an enum field |
| `Messages.Parse` | spec/functional/types_spec.rb:28 | a parsed message holds only the table's fields, each valid for its kind and label; a failure is one of the parse errors, and TypeError only when the table has an enum field |
| `Messages.PayloadReads` | spec/functional/types_spec.rb:25-28 | a payload written for a field reads back under that field's wire code as the same value, consuming exactly the payload, whatever follows |
| `Messages.RecordReads` | spec/functional/types_spec.rb:25-28 | a record written for a field of the table reads back as that field and value, consuming exactly the record, whatever follows |
| `Messages.OneRecordParses` | spec/functional/types_spec.rb:25-28 | the single record of a singular field parses into a message holding just that field |
| `Messages.RecordParses` | spec/functional/types_spec.rb:25-28 | one tag-and-payload record parses as storing its value |
| `Messages.StoreAllAppends` | spec/functional/types_spec.rb:25-28 | storing the values of a repeated field one by one appends them in order |
| `Messages.RecordsParse` | spec/functional/types_spec.rb:25-28 | the records of a repeated field parse as storing all its values in order |
| `Messages.FieldParses` | spec/functional/types_spec.rb:25-28 | the bytes written for one field parse back into that field's state |
| `Messages.RestrictStep` | spec/functional/types_spec.rb:25-28 | the fields of a table after its first one, added to the first field's state, are the fields of the whole table |
| `Messages.FieldsParse` | spec/functional/types_spec.rb:25-28 | the bytes written for any run of the table's fields parse back into exactly those fields |
| `Messages.RoundTrip` | spec/functional/types_spec.rb:7-87 | for any valid message with its required fields set, serialize succeeds and parsing its bytes gives back exactly the message |
| `Messages.RestrictToTable` | spec/functional/types_spec.rb:25-28 | a valid message is the restriction of itself to its table |
| `Messages.SkipAgreesWithDecode` | spec/functional/types_spec.rb:28 | skipping a field by its wire type consumes exactly what decoding it would |
| `Messages.UnknownFieldSkipped` | spec/functional/types_spec.rb:28 | a record whose number is not in the table is skipped, and parsing goes on with the rest |
| `Messages.MismatchedWireTypeFails` | spec/functional/types_spec.rb:28 | a known field carrying the wrong wire type is WireTypeMismatch |
| `Messages.TagAloneIsTruncated` | spec/functional/types_spec.rb:28 | input ending right after a known field's tag is TruncatedMessage |
| `Scenarios.TypesTableWellFormed` | spec/functional/types_spec.rb:4 | the table of fields type3 .. type15 has unique numbers in range and wire kinds only |
| `Scenarios.TypesTableNumbering` | spec/functional/types_spec.rb:8-23 | the table has 13 fields; the i-th is numbered i + 3 and has the kind of field type(i + 3) |
| `Scenarios.Fill` | spec/functional/types_spec.rb:8-23 | the filled message holds, under the number of each field of the table, that field's value |
| `Scenarios.FillValid` | spec/functional/types_spec.rb:8-23 | a message with every field set to a fitting value is valid, encodable and has no unset required field |
| `Scenarios.SetAll` | spec/functional/types_spec.rb:8-23 | calling the setters one after another fails only with TypeError or RangeError |
| `Scenarios.AssignSingle` | spec/functional/types_spec.rb:10-23 | a singular field's setter, given the Ruby value of a value valid for the field, stores exactly that value and changes nothing else |
| `Scenarios.FillCons` | spec/functional/types_spec.rb:8-23 | filling a table is filling all of it but the first field, then setting the first field, which the rest does not hold |
| `Scenarios.SettersFill` | spec/functional/types_spec.rb:8-23 | setting every singular field of a table in order to a valid value succeeds and overlays the filled message on the starting one |
| `Scenarios.SettersFromNew` | spec/functional/types_spec.rb:8-23 | the setter chain run on a new message gives exactly the filled message |
| `Scenarios.TypesValuesFit` | spec/functional/types_spec.rb:8-23 | in-range values for type3 .. type15 are valid for their fields |
| `Scenarios.TypesRoundTrip` | spec/functional/types_spec.rb:25-28 | the test message with fitting values survives serialize then parse |
| `Scenarios.TypesFieldRead` | spec/functional/types_spec.rb:30-45 | field typeN of the filled message holds the value given for it |
| `Scenarios.TypesMessageRoundTrip` | spec/functional/types_spec.rb:7-87 | any in-range assignment of type3 .. type15 survives serialize then parse |
| `Scenarios.TypesMessageReads` | spec/functional/types_spec.rb:30-45 | every field of the filled test message reads back what was assigned to it |
| `Scenarios.SerializesAllFieldTypes` | spec/functional/types_spec.rb:7-46 | the values of the first example, with any image payload, come back unchanged, including -1, -10, false and the image |
| `Scenarios.SerializesFieldBoundaries` | spec/functional/types_spec.rb:48-87 | the negatives and true of the second example come back unchanged, down to -8_000_000_000_000_000_000 |
| `Scenarios.SupportsDoubleAndFloat` | spec/functional/types_spec.rb:107-121 | double and float take an Integer or a Float and reject '' with TypeError |
| `Scenarios.SupportsIntegerFields` | spec/functional/types_spec.rb:123-183 | every integer field stores 1 and rejects 1.0 and '' with TypeError |
| `Scenarios.MinusOneAcrossIntegerFields` | spec/functional/types_spec.rb:123-163 | -1 is stored by int32, int64, sint32 and sint64 and is RangeError for uint32 and uint64 |
| `Scenarios.FixedFieldBounds` | spec/functional/types_spec.rb:165-183 | fixed32 and fixed64 store 0 and their max and reject max + 1 and -1 with RangeError |
| `Scenarios.SupportsBool` | spec/functional/types_spec.rb:185-191 | bool stores true and false, is cleared by nil, and rejects 0 and '' with TypeError |
| `Scenarios.SupportsString` | spec/functional/types_spec.rb:193-199 | string stores '' and 'hello', is cleared by nil, and rejects 0 and true with TypeError |
| `Scenarios.SupportsBytes` | spec/functional/types_spec.rb:201-208 | bytes stores '' and 'hello', is cleared by nil, and rejects 0, true and [] with TypeError |
| `Scenarios.VarintGetBytes` | spec/functional/types_spec.rb:210-212 | the varint encoding of 300 is "\xac\x02" |
| `Scenarios.GenericEnumValueApi` | spec/lib/protobuf/message/enum_spec.rb:10-20 | EnumValue(Object, :test_enum_name, 100) has that name and value, to_s 'test_enum_name', equals 100 from both sides, and plus 1 is 101 |
| `Scenarios.PhoneTypeWellFormed` | spec/lib/protobuf/message/enum_spec.rb:25 | PhoneType is a well-formed enum |
| `Scenarios.UnsetEnumFieldReadsEnumValue` | spec/lib/protobuf/message/enum_spec.rb:27 | an unset `type` field reads as an EnumValue of PhoneType |
| `Scenarios.EnumFieldAcceptsThreeShapes` | spec/lib/protobuf/message/enum_spec.rb:29-48 | assigning 1, :HOME or HOME stores HOME, which equals 1 |
| `Scenarios.EnumFieldRejects` | spec/lib/protobuf/message/enum_spec.rb:50-72 | 4, :USA and TutorialExt's HOME are each TypeError, although the last equals HOME by value |
| `Scenarios.HomeRecord` | spec/lib/protobuf/message/enum_spec.rb:29-34 | HOME stored in `type`, field 2, is written as 10 01 |
| `Scenarios.WireEnumRead` | spec/lib/protobuf/message/enum_spec.rb:29-34 | the bytes 10 01 parse into `type` holding HOME |
| `Scenarios.WireEnumRejected` | spec/lib/protobuf/message/enum_spec.rb:50-56 | the bytes 10 04 fail to parse with TypeError, as assigning 4 does |
| `Scenarios.PendingCoercesBothWays` | spec/lib/protobuf/message/enum_spec.rb:75-91 | PENDING equals 0 and not 1, from either side |

## Left out

- Floating point. Double and float fields are modelled only by their
  assignment rule: an Integer or a Float is taken and '' is TypeError. A
  Float is an uninterpreted token. So the model has no IEEE 754 encoding,
  no Infinity, no `be_within` tolerance, and no DoubleField/FloatField
  `max`/`min`. Those fields are not put on the wire (a well-formed table
  excludes them), so type1 and type2 are absent from the round-trip
  scenarios.
- Int-to-Float widening of a double or float field's stored value: the gate
  stores a real-kind value without interpreting it.
- File I/O. `File.open('test/data/unk.png')` becomes an arbitrary byte
  sequence shorter than 2^64, so the specific 10938-byte image is not
  modelled. The example that parses the fixture `test/data/types.bin` is
  not modelled, because the fixture's bytes are not available.
- The generated classes (`spec/proto/*.pb`: `Test::Types::TestTypes`,
  `Tutorial::Person`, `TutorialExt::Person`, `Spec::Proto::StatusType`) are
  not part of this model. In their place there is a field table with
  type3 .. type15, all optional, numbered as named. PhoneType is taken as
  MOBILE = 0, HOME = 1, WORK = 2; only HOME = 1 and "4 is not a member"
  come from the suite. StatusType is taken as PENDING = 0, ENABLED = 1,
  DISABLED = 2, DELETED = 3.
- Explicit `[default = …]` field options: an unset enum field reads as its
  enum's first member.
- nil for integer, double, float and enum fields: the suites only show nil
  being taken by bool, string and bytes fields, where it clears the field.
  Elsewhere the model rejects nil with TypeError.
- Ruby Strings are byte sequences. UTF-8 validation and encoding of string
  fields are not modelled.
- Groups (wire types 3 and 4) and packed repeated fields. Parsing an
  unknown field with wire code 3, 4, 6 or 7 is MalformedField.
- RSpec and Ruby mechanics (`subject`, `its`, `be_kind_of`, string
  interpolation in `"#{subject}"`), and RPC and transport.
- Messages.AdmitAll: repeated fields follow the Protocol Buffers design
  only; no line of either suite assigns an Array to a repeated field or
  writes or reads one. The list gate (`AdmitAll`, the repeated branch of
  `Messages.Assign`), `Messages.Records`, `StoreAllAppends` and
  `RecordsParse` are stated for completeness of the round trip, not as
  behaviour the suites check.
- Messages.Parse: an enum number with no member makes the whole parse fail
  with TypeError, the same gate as assignment; the number is not kept as an
  unknown value. Input that ends inside a payload fails with MalformedVarint
  or MalformedField. TruncatedMessage is reported only when a known field's
  tag is followed by nothing.
- Enums.ToS has no contract: it returns the Symbol's text, which the
  `GenericEnumValueApi` scenario states for the suite's value.
- Bytes are `int`s in 0..255 rather than `bv8`, so that the varint and word
  arithmetic stays in integers.
