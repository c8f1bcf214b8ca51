/** The examples of the two RSpec suites, stated over the model: the field
    types of Test::Types::TestTypes, the EnumValue API, and enum-field
    assignment on Tutorial::Person::PhoneNumber. */
module Scenarios {
  import opened Common
  import Varint
  import opened Enums
  import opened Fields
  import opened Messages

  // ---------------------------------------------------------------------
  // Test::Types::TestTypes

  /** The kinds of fields type3 .. type15 of the test message. type1
      (double) and type2 (float) are not on the wire in this model. */
  const TYPES_KINDS: seq<FieldKind> :=
    [ Int32, Int64, UInt32, UInt64, SInt32, SInt64, Fixed32, Fixed64
    , Bool, String, Bytes, SFixed32, SFixed64 ]

  /** Field typeN is optional, numbered N, of the N-th kind above. */
  function TypesTable(): FieldTable {
    seq(13, i requires 0 <= i < 13 =>
      FieldDescriptor(i + 3, "type" + NumberText(i + 3), Optional, TYPES_KINDS[i]))
  }

  /** Decimal text of a field number below 100. */
  function NumberText(n: nat): string
    requires n < 100
  {
    var digit := n % 10;
    if n < 10 then ["0123456789"[digit]] else ["0123456789"[n / 10], "0123456789"[digit]]
  }

  lemma TypesTableNumbering()
    ensures |TypesTable()| == 13
    ensures forall i :: 0 <= i < 13 ==> TypesTable()[i].number == i + 3
    ensures forall i :: 0 <= i < 13 ==> TypesTable()[i].kind == TYPES_KINDS[i]
  {
  }

  lemma TypesTableWellFormed()
    ensures |TypesTable()| == 13
    ensures WellFormedTable(TypesTable())
  {
    var t := TypesTable();
    TypesTableNumbering();
    TypesKindsOnWire();
    assert forall i :: 0 <= i < |t| ==>
      1 <= t[i].number <= MAX_FIELD_NUMBER && OnWire(t[i].kind) && WellFormedKind(t[i].kind);
    assert forall i, j :: 0 <= i < j < |t| ==> t[i].number != t[j].number;
  }

  /** Every kind of the test message goes on the wire, and none is an enum. */
  lemma TypesKindsOnWire()
    ensures forall i :: 0 <= i < |TYPES_KINDS| ==> OnWire(TYPES_KINDS[i]) && !TYPES_KINDS[i].Enum?
  {
  }

  /** The message holding `vals[i]` in the singular field `t[i]`, every
      field set. */
  function Fill(t: FieldTable, vals: seq<Value>): (m: Message)
    requires WellFormedTable(t) && |vals| == |t|
    ensures forall i :: 0 <= i < |t| ==> t[i].number in m && m[t[i].number] == Single(vals[i])
  {
    map i | 0 <= i < |t| :: t[i].number := Single(vals[i])
  }

  /** Calls the setter of each field of `t` in order with the Ruby value of
      the matching element of `vals`, as `subject.type3 = …` through
      `subject.type15 = …` do. The first refused value stops the chain. */
  function SetAll(t: FieldTable, vals: seq<Value>, m: Message): (r: Result<Message>)
    requires |vals| == |t|
    ensures r.Err? ==> r.error == TypeError || r.error == RangeError
    decreases |t|
  {
    if |t| == 0 then Ok(m)
    else
      match Assign(t[0], m, ToInput(vals[0]))
      case Err(e) => Err(e)
      case Ok(next) => SetAll(t[1..], vals[1..], next)
  }

  /** Setting every singular field of a table in order, each to a value
      valid for it, succeeds and overlays the filled message on the start. */
  lemma {:induction false} SettersFill(t: FieldTable, vals: seq<Value>, m: Message)
    requires WellFormedTable(t) && |vals| == |t|
    requires forall i :: 0 <= i < |t| ==> t[i].cardinality != Repeated && Valid(t[i].kind, vals[i])
    ensures SetAll(t, vals, m).Ok?
    ensures SetAll(t, vals, m).value == m + Fill(t, vals)
    decreases |t|
  {
    if |t| > 0 {
      var next := m[t[0].number := Single(vals[0])];
      AssignSingle(t[0], m, vals[0]);
      FillCons(t, vals);
      SettersFill(t[1..], vals[1..], next);
      OverlayStep(m, t[0].number, Single(vals[0]), Fill(t[1..], vals[1..]));
    }
  }

  /** A singular field's setter, given the Ruby value of a value valid for
      it, stores exactly that value. */
  lemma AssignSingle(fd: FieldDescriptor, m: Message, v: Value)
    requires fd.cardinality != Repeated && WellFormedKind(fd.kind) && Valid(fd.kind, v)
    ensures Assign(fd, m, ToInput(v)) == Ok(m[fd.number := Single(v)])
  {
    ReassignIsIdentity(fd.kind, v);
  }

  /** Setting one key and then overlaying a map without it is overlaying
      the map with that key set. */
  lemma OverlayStep(m: Message, n: nat, st: FieldState, rest: Message)
    requires n !in rest
    ensures m[n := st] + rest == m + rest[n := st]
  {
  }

  /** Filling a table is filling all but its first field, then setting the
      first. */
  lemma FillCons(t: FieldTable, vals: seq<Value>)
    requires WellFormedTable(t) && |vals| == |t| && |t| > 0
    ensures WellFormedTable(t[1..])
    ensures t[0].number !in Fill(t[1..], vals[1..])
    ensures Fill(t, vals) == Fill(t[1..], vals[1..])[t[0].number := Single(vals[0])]
  {
    var whole, tail := Fill(t, vals), Fill(t[1..], vals[1..]);
    forall n | n in whole && n != t[0].number ensures n in tail && tail[n] == whole[n] {
      var i :| 0 <= i < |t| && t[i].number == n;
      FillAt(t, vals, i);
    }
  }

  /** Any field of a table but the first is filled alike in the table and
      in the rest of it. */
  lemma FillAt(t: FieldTable, vals: seq<Value>, i: nat)
    requires WellFormedTable(t) && |vals| == |t| && 1 <= i < |t|
    ensures WellFormedTable(t[1..])
    ensures t[i].number in Fill(t[1..], vals[1..])
    ensures Fill(t[1..], vals[1..])[t[i].number] == Single(vals[i])
  {
    assert t[1..][i - 1] == t[i] && vals[1..][i - 1] == vals[i];
  }

  /** The setter chain of a new message gives exactly the filled message. */
  lemma SettersFromNew(t: FieldTable, vals: seq<Value>)
    requires WellFormedTable(t) && |vals| == |t|
    requires forall i :: 0 <= i < |t| ==> t[i].cardinality != Repeated && Valid(t[i].kind, vals[i])
    ensures SetAll(t, vals, map[]) == Ok(Fill(t, vals))
  {
    SettersFill(t, vals, map[]);
    assert map[] + Fill(t, vals) == Fill(t, vals);
  }

  /** A filled message satisfies what serialize needs when each value fits
      its field. */
  lemma FillValid(t: FieldTable, vals: seq<Value>)
    requires WellFormedTable(t) && |vals| == |t|
    requires forall i :: 0 <= i < |t| ==>
      t[i].cardinality != Repeated && Valid(t[i].kind, vals[i]) && Representable(vals[i])
    ensures ValidMessage(t, Fill(t, vals)) && Encodable(Fill(t, vals))
    ensures !MissingRequired(t, Fill(t, vals))
  {
    var m := Fill(t, vals);
    forall n | n in m ensures InTable(t, n) && (m[n].Single? && Representable(m[n].v)) {
      var i :| 0 <= i < |t| && t[i].number == n;
    }
  }

  /** "hello all types" as bytes. */
  const HELLO_ALL_TYPES: seq<byte> :=
    [104, 101, 108, 108, 111, 32, 97, 108, 108, 32, 116, 121, 112, 101, 115]

  const HELLO: seq<byte> := [104, 101, 108, 108, 111]

  /** The values of fields type3 .. type15, in table order. */
  function TypesValues(
    i3: int, i4: int, i5: int, i6: int, i7: int, i8: int, i9: int, i10: int,
    b11: bool, s12: seq<byte>, s13: seq<byte>, i14: int, i15: int): seq<Value>
  {
    [ IntV(i3), IntV(i4), IntV(i5), IntV(i6), IntV(i7), IntV(i8), IntV(i9), IntV(i10)
    , BoolV(b11), BytesV(s12), BytesV(s13), IntV(i14), IntV(i15) ]
  }

  /** Each of the values the test assigns lies in its field's range. */
  lemma TypesValuesFit(
    i3: int, i4: int, i5: int, i6: int, i7: int, i8: int, i9: int, i10: int,
    b11: bool, s12: seq<byte>, s13: seq<byte>, i14: int, i15: int)
    requires -0x8000_0000 <= i3 <= 0x7FFF_FFFF && -0x8000_0000 <= i7 <= 0x7FFF_FFFF
    requires -0x8000_0000 <= i14 <= 0x7FFF_FFFF
    requires -0x8000_0000_0000_0000 <= i4 <= 0x7FFF_FFFF_FFFF_FFFF
    requires -0x8000_0000_0000_0000 <= i8 <= 0x7FFF_FFFF_FFFF_FFFF
    requires -0x8000_0000_0000_0000 <= i15 <= 0x7FFF_FFFF_FFFF_FFFF
    requires 0 <= i5 <= 0xFFFF_FFFF && 0 <= i9 <= 0xFFFF_FFFF
    requires 0 <= i6 <= 0xFFFF_FFFF_FFFF_FFFF && 0 <= i10 <= 0xFFFF_FFFF_FFFF_FFFF
    requires |s12| < TWO_64 && |s13| < TWO_64
    ensures
      var vals := TypesValues(i3, i4, i5, i6, i7, i8, i9, i10, b11, s12, s13, i14, i15);
      forall i :: 0 <= i < 13 ==>
        Valid(TypesTable()[i].kind, vals[i]) && Representable(vals[i])
  {
  }

  /** Serialize succeeds on `m` and parsing its bytes gives `m` back. */
  predicate SurvivesRoundTrip(t: FieldTable, m: Message) {
    && WellFormedTable(t) && ValidMessage(t, m)
    && Serialize(t, m).Ok?
    && Parse(t, Serialize(t, m).value) == Ok(m)
  }

  /** Serialize then parse of the test message, for any values that fit
      their fields. */
  lemma TypesRoundTrip(vals: seq<Value>)
    requires |vals| == 13
    requires forall i :: 0 <= i < 13 ==>
      Valid(TypesTable()[i].kind, vals[i]) && Representable(vals[i])
    ensures WellFormedTable(TypesTable())
    ensures SurvivesRoundTrip(TypesTable(), Fill(TypesTable(), vals))
  {
    TypesTableWellFormed();
    FillValid(TypesTable(), vals);
    RoundTrip(TypesTable(), Fill(TypesTable(), vals));
  }

  /** In the filled test message, field number i + 3 holds vals[i]. */
  lemma TypesFieldRead(vals: seq<Value>, i: nat)
    requires |vals| == 13 && i < 13
    ensures WellFormedTable(TypesTable())
    ensures i + 3 in Fill(TypesTable(), vals) && Fill(TypesTable(), vals)[i + 3] == Single(vals[i])
  {
    TypesTableWellFormed();
    assert TypesTable()[i].number == i + 3;
  }

  /** Any in-range assignment of fields type3 .. type15 survives serialize
      then parse. */
  lemma TypesMessageRoundTrip(
    i3: int, i4: int, i5: int, i6: int, i7: int, i8: int, i9: int, i10: int,
    b11: bool, s12: seq<byte>, s13: seq<byte>, i14: int, i15: int)
    requires -0x8000_0000 <= i3 <= 0x7FFF_FFFF && -0x8000_0000 <= i7 <= 0x7FFF_FFFF
    requires -0x8000_0000 <= i14 <= 0x7FFF_FFFF
    requires -0x8000_0000_0000_0000 <= i4 <= 0x7FFF_FFFF_FFFF_FFFF
    requires -0x8000_0000_0000_0000 <= i8 <= 0x7FFF_FFFF_FFFF_FFFF
    requires -0x8000_0000_0000_0000 <= i15 <= 0x7FFF_FFFF_FFFF_FFFF
    requires 0 <= i5 <= 0xFFFF_FFFF && 0 <= i9 <= 0xFFFF_FFFF
    requires 0 <= i6 <= 0xFFFF_FFFF_FFFF_FFFF && 0 <= i10 <= 0xFFFF_FFFF_FFFF_FFFF
    requires |s12| < TWO_64 && |s13| < TWO_64
    ensures WellFormedTable(TypesTable())
    ensures SurvivesRoundTrip(TypesTable(), Fill(TypesTable(), TypesValues(i3, i4, i5, i6, i7, i8, i9, i10, b11, s12, s13, i14, i15)))
  {
    TypesValuesFit(i3, i4, i5, i6, i7, i8, i9, i10, b11, s12, s13, i14, i15);
    TypesRoundTrip(TypesValues(i3, i4, i5, i6, i7, i8, i9, i10, b11, s12, s13, i14, i15));
  }

  /** Every field of the filled test message holds what was assigned to it. */
  lemma TypesMessageReads(
    i3: int, i4: int, i5: int, i6: int, i7: int, i8: int, i9: int, i10: int,
    b11: bool, s12: seq<byte>, s13: seq<byte>, i14: int, i15: int)
    ensures |TypesTable()| == 13 && WellFormedTable(TypesTable())
    ensures var m := Fill(TypesTable(), TypesValues(i3, i4, i5, i6, i7, i8, i9, i10, b11, s12, s13, i14, i15));
      && 3 in m && m[3] == Single(IntV(i3)) && 4 in m && m[4] == Single(IntV(i4))
      && 5 in m && m[5] == Single(IntV(i5)) && 6 in m && m[6] == Single(IntV(i6))
    ensures var m := Fill(TypesTable(), TypesValues(i3, i4, i5, i6, i7, i8, i9, i10, b11, s12, s13, i14, i15));
      && 7 in m && m[7] == Single(IntV(i7)) && 8 in m && m[8] == Single(IntV(i8))
      && 9 in m && m[9] == Single(IntV(i9)) && 10 in m && m[10] == Single(IntV(i10))
    ensures var m := Fill(TypesTable(), TypesValues(i3, i4, i5, i6, i7, i8, i9, i10, b11, s12, s13, i14, i15));
      && 11 in m && m[11] == Single(BoolV(b11))
      && 12 in m && m[12] == Single(BytesV(s12)) && 13 in m && m[13] == Single(BytesV(s13))
      && 14 in m && m[14] == Single(IntV(i14)) && 15 in m && m[15] == Single(IntV(i15))
  {
    var vals := TypesValues(i3, i4, i5, i6, i7, i8, i9, i10, b11, s12, s13, i14, i15);
    TypesFieldRead(vals, 0); TypesFieldRead(vals, 1); TypesFieldRead(vals, 2);
    TypesFieldRead(vals, 3); TypesFieldRead(vals, 4); TypesFieldRead(vals, 5);
    TypesFieldRead(vals, 6); TypesFieldRead(vals, 7); TypesFieldRead(vals, 8);
    TypesFieldRead(vals, 9); TypesFieldRead(vals, 10); TypesFieldRead(vals, 11);
    TypesFieldRead(vals, 12);
  }

  /** 'serializes all protobuf field types': every integer, the bool, the
      string and an arbitrary image payload come back from serialize then
      parse exactly, the image with its length. */
  lemma SerializesAllFieldTypes(image: seq<byte>)
    requires |image| < TWO_64
    ensures WellFormedTable(TypesTable())
    ensures
      var m := Fill(TypesTable(), TypesValues(1, 10, 100, 1000, -1, -10, 10000, 100000,
                                              false, HELLO_ALL_TYPES, image, -100, -1000));
      && SurvivesRoundTrip(TypesTable(), m)
      && 7 in m && m[7] == Single(IntV(-1)) && 8 in m && m[8] == Single(IntV(-10))
      && 11 in m && m[11] == Single(BoolV(false)) && 13 in m && m[13] == Single(BytesV(image))
  {
    TypesMessageRoundTrip(1, 10, 100, 1000, -1, -10, 10000, 100000,
                          false, HELLO_ALL_TYPES, image, -100, -1000);
    TypesMessageReads(1, 10, 100, 1000, -1, -10, 10000, 100000,
                      false, HELLO_ALL_TYPES, image, -100, -1000);
  }

  /** 'serializes field boundaries as well': negatives for int32, int64,
      sint32, sint64, sfixed32 and sfixed64, and bool true, survive the
      round trip. */
  lemma SerializesFieldBoundaries(image: seq<byte>)
    requires |image| < TWO_64
    ensures WellFormedTable(TypesTable())
    ensures
      var m := Fill(TypesTable(), TypesValues(-1, -10, 100, 1000, -1000, -10000, 10000, 100000,
                                              true, HELLO_ALL_TYPES, image, -2_000_000_000,
                                              -8_000_000_000_000_000_000));
      && SurvivesRoundTrip(TypesTable(), m)
      && 3 in m && m[3] == Single(IntV(-1)) && 11 in m && m[11] == Single(BoolV(true))
      && 14 in m && m[14] == Single(IntV(-2_000_000_000))
      && 15 in m && m[15] == Single(IntV(-8_000_000_000_000_000_000))
  {
    TypesMessageRoundTrip(-1, -10, 100, 1000, -1000, -10000, 10000, 100000,
                          true, HELLO_ALL_TYPES, image, -2_000_000_000,
                          -8_000_000_000_000_000_000);
    TypesMessageReads(-1, -10, 100, 1000, -1000, -10000, 10000, 100000,
                      true, HELLO_ALL_TYPES, image, -2_000_000_000,
                      -8_000_000_000_000_000_000);
  }

  /** 'supports double' / 'support float': an Integer or a Float is taken,
      the empty string is a TypeError. */
  lemma SupportsDoubleAndFloat(f: FloatToken)
    ensures Coerce(Double, IntIn(1)).Ok? && Coerce(Double, FloatIn(f)).Ok?
    ensures Coerce(Float, IntIn(1)).Ok? && Coerce(Float, FloatIn(f)).Ok?
    ensures Coerce(Double, StrIn([])) == Err(TypeError)
    ensures Coerce(Float, StrIn([])) == Err(TypeError)
  {
  }

  /** 'supports int32' .. 'supports fixed64': every integer field stores 1,
      and refuses the Float 1.0 and the String '' with TypeError. */
  lemma SupportsIntegerFields(k: FieldKind, one: FloatToken)
    requires IsIntegerKind(k)
    ensures Coerce(k, IntIn(1)) == Ok(Store(IntV(1)))
    ensures Coerce(k, FloatIn(one)) == Err(TypeError)
    ensures Coerce(k, StrIn([])) == Err(TypeError)
  {
    TypeGate(k, FloatIn(one));
    TypeGate(k, StrIn([]));
    RangeGate(k, 1);
  }

  /** -1: stored by int32, int64, sint32 and sint64; RangeError for uint32
      and uint64. */
  lemma MinusOneAcrossIntegerFields()
    ensures Coerce(Int32, IntIn(-1)).Ok? && Coerce(Int64, IntIn(-1)).Ok?
    ensures Coerce(SInt32, IntIn(-1)).Ok? && Coerce(SInt64, IntIn(-1)).Ok?
    ensures Coerce(UInt32, IntIn(-1)) == Err(RangeError)
    ensures Coerce(UInt64, IntIn(-1)) == Err(RangeError)
  {
  }

  /** 'supports fixed32' / 'supports fixed64': max and min are stored,
      max + 1 and min - 1 are RangeErrors. */
  lemma FixedFieldBounds()
    ensures Coerce(Fixed32, IntIn(0xFFFF_FFFF)).Ok? && Coerce(Fixed32, IntIn(0)).Ok?
    ensures Coerce(Fixed32, IntIn(0x1_0000_0000)) == Err(RangeError)
    ensures Coerce(Fixed32, IntIn(-1)) == Err(RangeError)
    ensures Coerce(Fixed64, IntIn(0xFFFF_FFFF_FFFF_FFFF)).Ok? && Coerce(Fixed64, IntIn(0)).Ok?
    ensures Coerce(Fixed64, IntIn(0x1_0000_0000_0000_0000)) == Err(RangeError)
    ensures Coerce(Fixed64, IntIn(-1)) == Err(RangeError)
  {
    BoundaryAcceptance(Fixed32);
    BoundaryAcceptance(Fixed64);
  }

  /** 'supports bool': true, false and nil are taken; 0 and '' are
      TypeErrors. */
  lemma SupportsBool()
    ensures Coerce(Bool, BoolIn(true)) == Ok(Store(BoolV(true)))
    ensures Coerce(Bool, BoolIn(false)) == Ok(Store(BoolV(false)))
    ensures Coerce(Bool, NilIn) == Ok(Clear)
    ensures Coerce(Bool, IntIn(0)) == Err(TypeError)
    ensures Coerce(Bool, StrIn([])) == Err(TypeError)
  {
  }

  /** 'supports string': '', 'hello' and nil are taken; 0 and true are
      TypeErrors. */
  lemma SupportsString()
    ensures Coerce(String, StrIn([])) == Ok(Store(BytesV([])))
    ensures Coerce(String, StrIn(HELLO)) == Ok(Store(BytesV(HELLO)))
    ensures Coerce(String, NilIn) == Ok(Clear)
    ensures Coerce(String, IntIn(0)) == Err(TypeError)
    ensures Coerce(String, BoolIn(true)) == Err(TypeError)
  {
  }

  /** 'supports bytes fields': '', 'hello' and nil are taken; 0, true and
      the empty Array are TypeErrors. */
  lemma SupportsBytes()
    ensures Coerce(Bytes, StrIn([])) == Ok(Store(BytesV([])))
    ensures Coerce(Bytes, StrIn(HELLO)) == Ok(Store(BytesV(HELLO)))
    ensures Coerce(Bytes, NilIn) == Ok(Clear)
    ensures Coerce(Bytes, IntIn(0)) == Err(TypeError)
    ensures Coerce(Bytes, BoolIn(true)) == Err(TypeError)
    ensures Coerce(Bytes, ListIn([])) == Err(TypeError)
  {
  }

  /** 'supports varint getbytes'. */
  lemma VarintGetBytes()
    ensures Varint.Encode(300) == [0xAC, 0x02]
  {
    Varint.Encode300();
  }

  // ---------------------------------------------------------------------
  // Protobuf::EnumValue

  /** `Object` stands in as the descriptor of an ad-hoc EnumValue. */
  const OBJECT: EnumDescriptor := EnumDescriptor("Object", [])

  /** 'generic EnumValue API'. */
  lemma GenericEnumValueApi()
    ensures
      var ev := EnumValue(OBJECT, Symbol("test_enum_name"), 100);
      && ev.name == Symbol("test_enum_name") && ev.value == 100
      && ToS(ev) == "test_enum_name"
      && Equals(IntOperand(100), EnumOperand(ev))
      && Equals(EnumOperand(ev), IntOperand(100))
      && Plus(ev, 1) == 101
      && Equals(IntOperand(101), IntOperand(Plus(ev, 1)))
  {
  }

  // ---------------------------------------------------------------------
  // Tutorial::Person::PhoneNumber

  const MOBILE := Symbol("MOBILE")
  const HOME := Symbol("HOME")
  const WORK := Symbol("WORK")

  function PhoneMembers(): seq<EnumMember> {
    [EnumMember(MOBILE, 0), EnumMember(HOME, 1), EnumMember(WORK, 2)]
  }

  /** Tutorial::Person::PhoneType. */
  const PHONE_TYPE: EnumDescriptor := EnumDescriptor("Tutorial.Person.PhoneType", PhoneMembers())

  /** TutorialExt::Person::PhoneType: the same members, another enum type. */
  const EXT_PHONE_TYPE: EnumDescriptor := EnumDescriptor("TutorialExt.Person.PhoneType", PhoneMembers())

  const HOME_ENUM: EnumValue := EnumValue(PHONE_TYPE, HOME, 1)
  const EXT_HOME_ENUM: EnumValue := EnumValue(EXT_PHONE_TYPE, HOME, 1)

  /** PhoneNumber's `type` field. */
  const TYPE_FIELD: FieldDescriptor := FieldDescriptor(2, "type", Optional, Enum(PHONE_TYPE))

  lemma PhoneTypeWellFormed()
    ensures Enums.WellFormed(PHONE_TYPE)
  {
  }

  /** An unset `type` field still reads as an EnumValue of PhoneType. */
  lemma UnsetEnumFieldReadsEnumValue()
    ensures Enums.WellFormed(PHONE_TYPE)
    ensures Get(TYPE_FIELD, map[]).Single?
    ensures Get(TYPE_FIELD, map[]).v.EnumV?
    ensures IsMember(PHONE_TYPE, Get(TYPE_FIELD, map[]).v.e)
  {
    PhoneTypeWellFormed();
  }

  /** 'accepts integer / symbol / enum assignment': 1, :HOME and HOME all
      store HOME, which equals HOME and equals 1. */
  lemma EnumFieldAcceptsThreeShapes(x: Input)
    requires x == IntIn(1) || x == SymIn(HOME) || x == EnumIn(HOME_ENUM)
    ensures Enums.WellFormed(PHONE_TYPE)
    ensures Assign(TYPE_FIELD, map[], x) == Ok(map[2 := Single(EnumV(HOME_ENUM))])
    ensures Get(TYPE_FIELD, Assign(TYPE_FIELD, map[], x).value) == Single(EnumV(HOME_ENUM))
    ensures Equals(EnumOperand(HOME_ENUM), IntOperand(1))
  {
    PhoneTypeWellFormed();
    EnumAssignmentNormalises(PHONE_TYPE, 1);
  }

  /** 'rejects integer assignment' (4), 'rejects symbol assignment' (:USA)
      and 'rejects enum assignment' (TutorialExt's HOME, although it equals
      HOME by value). */
  lemma EnumFieldRejects()
    ensures Assign(TYPE_FIELD, map[], IntIn(4)) == Err(TypeError)
    ensures Assign(TYPE_FIELD, map[], SymIn(Symbol("USA"))) == Err(TypeError)
    ensures Assign(TYPE_FIELD, map[], EnumIn(EXT_HOME_ENUM)) == Err(TypeError)
    ensures Equals(EnumOperand(EXT_HOME_ENUM), EnumOperand(HOME_ENUM))
  {
    EnumAssignmentRejects(PHONE_TYPE, IntIn(4));
    EnumAssignmentRejects(PHONE_TYPE, SymIn(Symbol("USA")));
    EnumAssignmentRejects(PHONE_TYPE, EnumIn(EXT_HOME_ENUM));
  }

  /** The same gate behind parse_from_string: a `type` record carrying 4,
      which no PhoneType member has, fails the whole parse with TypeError. */
  lemma WireEnumRejected()
    ensures WellFormedTable([TYPE_FIELD])
    ensures Parse([TYPE_FIELD], [0x10, 0x04]) == Err(TypeError)
  {
    PhoneTypeWellFormed();
    var s: seq<byte> := [0x10, 0x04];
    assert Varint.Decode(s) == Ok((16, 1));
    assert s[1..] == [0x04];
    assert Lookup([TYPE_FIELD], 2) == Some(TYPE_FIELD);
    assert DecodeValue(TYPE_FIELD.kind, [0x04]) == Ok((IntIn(4), 1));
    EnumAssignmentRejects(PHONE_TYPE, IntIn(4));
    assert ReadKnown(TYPE_FIELD, 0, [0x04]) == Err(TypeError);
  }

  /** A `type` record carrying 1 reads as HOME. */
  lemma WireEnumRead()
    ensures WellFormedTable([TYPE_FIELD])
    ensures Parse([TYPE_FIELD], [0x10, 0x01]).Ok?
    ensures Parse([TYPE_FIELD], [0x10, 0x01]).value == map[2 := Single(EnumV(HOME_ENUM))]
  {
    HomeRecord();
    OneRecordParses([TYPE_FIELD], TYPE_FIELD, EnumV(HOME_ENUM));
  }

  /** HOME in field 2: tag 0x10 (field 2, varint), then 1. */
  lemma HomeRecord()
    ensures Enums.WellFormed(PHONE_TYPE) && IsMember(PHONE_TYPE, HOME_ENUM)
    ensures Record(TYPE_FIELD, EnumV(HOME_ENUM)) == [0x10, 0x01]
  {
    PhoneTypeWellFormed();
    assert PHONE_TYPE.members[1] == EnumMember(HOME, 1);
    var fd, v := TYPE_FIELD, EnumV(HOME_ENUM);
    var tl := RecordParts(fd, v, []);
    var raw := EnumPayload(fd.kind, v);
    assert Tag(2, VarintWire) == 0x10;
    assert Varint.Encode(0x10) == [0x10];
    assert Varint.Encode(1) == [0x01];
    assert Record(fd, v) + [] == Record(fd, v);
  }

  // ---------------------------------------------------------------------
  // Spec::Proto::StatusType

  const PENDING: EnumValue :=
    EnumValue(EnumDescriptor("Spec.Proto.StatusType",
                             [EnumMember(Symbol("PENDING"), 0), EnumMember(Symbol("ENABLED"), 1),
                              EnumMember(Symbol("DISABLED"), 2), EnumMember(Symbol("DELETED"), 3)]),
              Symbol("PENDING"), 0)

  /** 'when coercing': PENDING equals 0 and not 1, tested from either side. */
  lemma PendingCoercesBothWays()
    ensures Equals(EnumOperand(PENDING), IntOperand(0))
    ensures !Equals(EnumOperand(PENDING), IntOperand(1))
    ensures Equals(IntOperand(0), EnumOperand(PENDING))
    ensures !Equals(IntOperand(1), EnumOperand(PENDING))
  {
  }
}
