/** The scalar field kinds: what an assignment accepts (the TypeError /
    RangeError gate), the value it stores, the default an unset field reads
    as, and how a stored value travels on the wire. */
module Fields {
  import opened Common
  import Varint
  import FixedWidth
  import opened Integers
  import opened Enums

  datatype FieldKind =
    | Double | Float
    | Int32 | Int64 | UInt32 | UInt64 | SInt32 | SInt64
    | Fixed32 | Fixed64 | SFixed32 | SFixed64
    | Bool | String | Bytes
    | Enum(descriptor: EnumDescriptor)

  predicate IsIntegerKind(k: FieldKind) {
    || k.Int32? || k.Int64? || k.UInt32? || k.UInt64? || k.SInt32? || k.SInt64?
    || k.Fixed32? || k.Fixed64? || k.SFixed32? || k.SFixed64?
  }

  predicate IsUnsignedKind(k: FieldKind) {
    k.UInt32? || k.UInt64? || k.Fixed32? || k.Fixed64?
  }

  /** The inclusive lower bound of an integer kind (`Field.min`). */
  function Min(k: FieldKind): int
    requires IsIntegerKind(k)
  {
    match k
    case Int32 | SInt32 | SFixed32 => -0x8000_0000
    case Int64 | SInt64 | SFixed64 => -0x8000_0000_0000_0000
    case _ => 0
  }

  /** The inclusive upper bound of an integer kind (`Field.max`). */
  function Max(k: FieldKind): int
    requires IsIntegerKind(k)
  {
    match k
    case Int32 | SInt32 | SFixed32 => 0x7FFF_FFFF
    case Int64 | SInt64 | SFixed64 => 0x7FFF_FFFF_FFFF_FFFF
    case UInt32 | Fixed32 => 0xFFFF_FFFF
    case _ => 0xFFFF_FFFF_FFFF_FFFF
  }

  /** An enum field's descriptor is one the schema could have built. */
  predicate WellFormedKind(k: FieldKind) {
    k.Enum? ==> Enums.WellFormed(k.descriptor)
  }

  /** A Ruby Float, kept opaque: the model never interprets its IEEE-754
      binary64 bit pattern. */
  datatype FloatToken = FloatBits(bits: nat)

  /** What a double/float field holds: an Integer not yet widened, or a Float. */
  datatype Numeric = IntNum(i: int) | FloatNum(f: FloatToken)

  /** The Ruby object handed to a field setter. A Ruby String is modelled
      as its bytes. */
  datatype Input =
    | IntIn(i: int)
    | FloatIn(f: FloatToken)
    | StrIn(s: seq<byte>)
    | BoolIn(b: bool)
    | NilIn
    | SymIn(sym: Symbol)
    | EnumIn(ev: EnumValue)
    | ListIn(items: seq<Input>)

  /** A value as stored in a message after the assignment gate. */
  datatype Value =
    | IntV(i: int)
    | RealV(n: Numeric)
    | BoolV(b: bool)
    | BytesV(s: seq<byte>)
    | EnumV(e: EnumValue)

  /** The invariant every stored value keeps: it has the kind's shape and
      lies within the kind's bounds; an enum field holds a member of its
      own enum. */
  predicate Valid(k: FieldKind, v: Value) {
    match k
    case Double | Float => v.RealV?
    case Bool => v.BoolV?
    case String | Bytes => v.BytesV?
    case Enum(d) => v.EnumV? && IsMember(d, v.e)
    case _ => v.IntV? && Min(k) <= v.i <= Max(k)
  }

  /** The Ruby classes each kind takes before any value check: Integer for
      integer kinds, Integer or Float for double/float, true/false/nil for
      bool, String or nil for string and bytes, Integer, Symbol or EnumValue
      for enums. */
  predicate NativeKind(k: FieldKind, x: Input) {
    match k
    case Double | Float => x.IntIn? || x.FloatIn?
    case Bool => x.BoolIn? || x.NilIn?
    case String | Bytes => x.StrIn? || x.NilIn?
    case Enum(_) => x.IntIn? || x.SymIn? || x.EnumIn?
    case _ => x.IntIn?
  }

  /** The enum leg of the gate: an Integer or Symbol naming a member, or an
      EnumValue of this very enum, all normalised to the member's canonical
      EnumValue. */
  function AdmitEnum(d: EnumDescriptor, x: Input): (r: Result<Value>)
    ensures r.Ok? ==> r.value.EnumV? && IsMember(d, r.value.e)
    ensures r.Ok? && x.IntIn? ==> r.value.e.value == x.i
    ensures r.Ok? && x.SymIn? ==> r.value.e.name == x.sym
    ensures r.Ok? && x.EnumIn? ==> x.ev.descriptor == d && r.value.e.value == x.ev.value
    ensures r.Err? ==> r.error == TypeError
    ensures x.EnumIn? && x.ev.descriptor != d ==> r == Err(TypeError)
  {
    match x
    case IntIn(i) =>
      (match ByValue(d, i)
       case Some(ev) => Ok(EnumV(ev))
       case None => Err(TypeError))
    case SymIn(name) =>
      (match ByName(d, name)
       case Some(ev) => Ok(EnumV(ev))
       case None => Err(TypeError))
    case EnumIn(ev) =>
      if ev.descriptor != d then Err(TypeError)
      else
        (match ByValue(d, ev.value)
         case Some(c) => Ok(EnumV(c))
         case None => Err(TypeError))
    case _ => Err(TypeError)
  }

  /** The assignment gate for a non-nil value: the class check comes first
      (TypeError), the range check second (RangeError). */
  function Admit(k: FieldKind, x: Input): (r: Result<Value>)
    ensures r.Ok? ==> Valid(k, r.value)
    ensures r.Ok? ==> NativeKind(k, x)
    ensures r.Err? ==> r.error == TypeError || r.error == RangeError
    ensures r == Err(RangeError) ==> IsIntegerKind(k) && x.IntIn?
  {
    match k
    case Double | Float =>
      (match x
       case IntIn(i) => Ok(RealV(IntNum(i)))
       case FloatIn(f) => Ok(RealV(FloatNum(f)))
       case _ => Err(TypeError))
    case Bool => if x.BoolIn? then Ok(BoolV(x.b)) else Err(TypeError)
    case String | Bytes => if x.StrIn? then Ok(BytesV(x.s)) else Err(TypeError)
    case Enum(d) => AdmitEnum(d, x)
    case _ =>
      if !x.IntIn? then Err(TypeError)
      else if x.i < Min(k) || Max(k) < x.i then Err(RangeError)
      else Ok(IntV(x.i))
  }

  /** Kinds for which assigning nil clears the field. */
  predicate ClearsOnNil(k: FieldKind) {
    k.Bool? || k.String? || k.Bytes?
  }

  /** The outcome of a successful assignment. */
  datatype Assigned = Clear | Store(v: Value)

  /** Field assignment: nil clears a bool, string or bytes field; every
      other value passes the gate or fails with TypeError or RangeError. */
  function Coerce(k: FieldKind, x: Input): (r: Result<Assigned>)
    ensures r == Ok(Clear) <==> x.NilIn? && ClearsOnNil(k)
    ensures r.Ok? && r.value.Store? ==> Valid(k, r.value.v)
    ensures r.Err? ==> r.error == TypeError || r.error == RangeError
  {
    if x.NilIn? && ClearsOnNil(k) then Ok(Clear)
    else
      match Admit(k, x)
      case Ok(v) => Ok(Store(v))
      case Err(e) => Err(e)
  }

  /** A value of the wrong Ruby class is refused with TypeError; for every
      kind but enum that is the only way to get a TypeError. */
  lemma TypeGate(k: FieldKind, x: Input)
    ensures !NativeKind(k, x) ==> Coerce(k, x) == Err(TypeError)
    ensures !k.Enum? ==> (Coerce(k, x) == Err(TypeError) <==> !NativeKind(k, x))
  {
  }

  /** An Integer assigned to an integer field fails with RangeError exactly
      when it lies outside [Min, Max], and is stored unchanged otherwise. */
  lemma RangeGate(k: FieldKind, i: int)
    requires IsIntegerKind(k)
    ensures Coerce(k, IntIn(i)) == Err(RangeError) <==> i < Min(k) || Max(k) < i
    ensures Min(k) <= i <= Max(k) ==> Coerce(k, IntIn(i)) == Ok(Store(IntV(i)))
  {
  }

  /** Every integer kind takes exactly its documented bounds and refuses one
      past either end with RangeError. */
  lemma BoundaryAcceptance(k: FieldKind)
    requires IsIntegerKind(k)
    ensures Coerce(k, IntIn(Max(k))).Ok? && Coerce(k, IntIn(Min(k))).Ok?
    ensures Coerce(k, IntIn(Max(k) + 1)) == Err(RangeError)
    ensures Coerce(k, IntIn(Min(k) - 1)) == Err(RangeError)
  {
    RangeGate(k, Max(k));
    RangeGate(k, Min(k));
    RangeGate(k, Max(k) + 1);
    RangeGate(k, Min(k) - 1);
  }

  /** -1 is refused with RangeError by the unsigned kinds and stored by the
      signed ones; 1 is stored by all. */
  lemma MinusOneSplitsSignedness(k: FieldKind)
    requires IsIntegerKind(k)
    ensures IsUnsignedKind(k) ==> Coerce(k, IntIn(-1)) == Err(RangeError)
    ensures !IsUnsignedKind(k) ==> Coerce(k, IntIn(-1)) == Ok(Store(IntV(-1)))
    ensures Coerce(k, IntIn(1)) == Ok(Store(IntV(1)))
  {
    RangeGate(k, -1);
    RangeGate(k, 1);
  }

  /** The kinds' bounds are the 32- and 64-bit words they travel in. */
  lemma BoundsAreWords(k: FieldKind, i: int)
    requires IsIntegerKind(k)
    ensures (k.Int32? || k.SInt32? || k.SFixed32?) ==> (Min(k) <= i <= Max(k) <==> InSigned(i, TWO_31))
    ensures (k.Int64? || k.SInt64? || k.SFixed64?) ==> (Min(k) <= i <= Max(k) <==> InSigned(i, TWO_63))
    ensures (k.UInt32? || k.Fixed32?) ==> (Min(k) <= i <= Max(k) <==> 0 <= i < TWO_32)
    ensures (k.UInt64? || k.Fixed64?) ==> (Min(k) <= i <= Max(k) <==> 0 <= i < TWO_64)
  {
  }

  /** The three ways of naming an enum member, Integer, Symbol and the
      member's own EnumValue, store the same canonical value. */
  lemma EnumAssignmentNormalises(d: EnumDescriptor, i: nat)
    requires Enums.WellFormed(d) && i < |d.members|
    ensures Coerce(Enum(d), IntIn(d.members[i].value)) == Ok(Store(EnumV(Canonical(d, i))))
    ensures Coerce(Enum(d), SymIn(d.members[i].name)) == Ok(Store(EnumV(Canonical(d, i))))
    ensures Coerce(Enum(d), EnumIn(Canonical(d, i))) == Ok(Store(EnumV(Canonical(d, i))))
  {
    LookupsAgree(d, i);
  }

  /** An enum field refuses with TypeError an Integer no member carries, a
      Symbol no member is named, and any EnumValue of another enum type,
      even one equal by value to a member. */
  lemma EnumAssignmentRejects(d: EnumDescriptor, x: Input)
    requires
      || (x.IntIn? && forall j :: 0 <= j < |d.members| ==> d.members[j].value != x.i)
      || (x.SymIn? && forall j :: 0 <= j < |d.members| ==> d.members[j].name != x.sym)
      || (x.EnumIn? && x.ev.descriptor != d)
    ensures Coerce(Enum(d), x) == Err(TypeError)
  {
  }

  /** The Ruby object a getter hands back for a stored value. */
  function ToInput(v: Value): Input {
    match v
    case IntV(i) => IntIn(i)
    case RealV(IntNum(i)) => IntIn(i)
    case RealV(FloatNum(f)) => FloatIn(f)
    case BoolV(b) => BoolIn(b)
    case BytesV(s) => StrIn(s)
    case EnumV(ev) => EnumIn(ev)
  }

  /** Assigning back what a field reads stores the same value again:
      the gate is idempotent on the values it produces. */
  lemma ReassignIsIdentity(k: FieldKind, v: Value)
    requires WellFormedKind(k) && Valid(k, v)
    ensures Coerce(k, ToInput(v)) == Ok(Store(v))
  {
    if k.Enum? {
      MemberIsCanonical(k.descriptor, v.e);
    }
  }

  /** The value an unset singular field reads as: zero, +0.0, false, the
      empty string, or the enum's first member. */
  function Default(k: FieldKind): (r: Value)
    requires WellFormedKind(k)
    ensures Valid(k, r)
  {
    match k
    case Double | Float => RealV(FloatNum(FloatBits(0)))
    case Bool => BoolV(false)
    case String | Bytes => BytesV([])
    case Enum(d) => EnumV(DefaultValue(d))
    case _ => IntV(0)
  }

  // ---------------------------------------------------------------------
  // Wire representation (Protocol Buffers encoding guide, "Message
  // Structure": wire types 0 VARINT, 1 I64, 2 LEN, 5 I32).

  datatype WireType = VarintWire | Fixed64Wire | LengthDelimited | Fixed32Wire

  /** The wire type's number, the low three bits of a tag. */
  function WireCode(w: WireType): (r: nat)
    ensures r < 8
  {
    match w
    case VarintWire => 0
    case Fixed64Wire => 1
    case LengthDelimited => 2
    case Fixed32Wire => 5
  }

  /** The guide's table from field kind to wire type: double, fixed64 and
      sfixed64 are I64; float, fixed32 and sfixed32 are I32; string and
      bytes are LEN; every integer kind, bool and enum is VARINT. */
  function WireTypeOf(k: FieldKind): WireType {
    match k
    case Double | Fixed64 | SFixed64 => Fixed64Wire
    case Float | Fixed32 | SFixed32 => Fixed32Wire
    case String | Bytes => LengthDelimited
    case _ => VarintWire
  }

  /** Kinds whose wire form this model covers (all but double and float). */
  predicate OnWire(k: FieldKind) {
    !k.Double? && !k.Float?
  }

  /** A length prefix must fit the 64-bit varint it is written as. */
  predicate Representable(v: Value) {
    v.BytesV? ==> |v.s| < TWO_64
  }

  /** The payload of one field value, without its tag. int32, int64 and enum
      write the 64-bit two's-complement pattern; sint32/sint64 write the
      ZigZag image; fixed kinds write little-endian words; string and bytes
      are prefixed with their length. */
  function EncodeValue(k: FieldKind, v: Value): (r: seq<byte>)
    requires OnWire(k) && WellFormedKind(k) && Valid(k, v)
    ensures |r| >= 1
    ensures WireTypeOf(k) == VarintWire ==> Varint.WellTerminated(r)
    ensures WireTypeOf(k) == Fixed32Wire ==> |r| == 4
    ensures WireTypeOf(k) == Fixed64Wire ==> |r| == 8
    ensures WireTypeOf(k) == LengthDelimited ==> |r| > |v.s| && r[|r| - |v.s|..] == v.s
  {
    match k
    case Int32 | Int64 => Varint.Encode(ToUnsigned(v.i, TWO_63))
    case UInt32 | UInt64 => Varint.Encode(v.i)
    case SInt32 | SInt64 => Varint.Encode(ZigZagEncode(v.i))
    case Fixed32 => FixedWidth.WordSizes(); FixedWidth.Encode(v.i, 4)
    case Fixed64 => FixedWidth.WordSizes(); FixedWidth.Encode(v.i, 8)
    case SFixed32 => FixedWidth.WordSizes(); FixedWidth.Encode(ToUnsigned(v.i, TWO_31), 4)
    case SFixed64 => FixedWidth.WordSizes(); FixedWidth.Encode(ToUnsigned(v.i, TWO_63), 8)
    case Bool => Varint.Encode(if v.b then 1 else 0)
    case String | Bytes => LengthPrefixed(v.s)
    case Enum(d) =>
      MemberInRange(d, v.e);
      Varint.Encode(ToUnsigned(v.e.value, TWO_63))
  }

  /** Bytes behind the varint of their length. */
  function LengthPrefixed(b: seq<byte>): (r: seq<byte>)
    ensures |r| > |b| && r[|r| - |b|..] == b
    ensures |b| < TWO_64 ==> Varint.Decode(r).Ok? && Varint.Decode(r).value.0 == |b|
                             && Varint.Decode(r).value.1 == |r| - |b|
  {
    var r := Varint.Encode(|b|) + b;
    assert r[|r| - |b|..] == b;
    if |b| < TWO_64 then Varint.RoundTrip(|b|, b); r else r
  }

  /** Reads a `width`-byte little-endian word. */
  function DecodeWord(s: seq<byte>, width: nat): (r: Result<(nat, nat)>)
    ensures r.Ok? ==> r.value.1 == width <= |s| && r.value.0 < FixedWidth.Pow256(width)
    ensures r.Err? <==> |s| < width
    ensures r.Err? ==> r.error == MalformedField
  {
    if |s| < width then Err(MalformedField)
    else Ok((FixedWidth.Decode(s[..width]), width))
  }

  /** Reads one field payload from the front of `s`: the Ruby value it
      stands for and the number of bytes it took. Varint kinds keep only the
      low 32 or 64 bits of what they read. */
  function DecodeValue(k: FieldKind, s: seq<byte>): (r: Result<(Input, nat)>)
    requires OnWire(k)
    ensures r.Ok? ==> 1 <= r.value.1 <= |s|
    ensures r.Err? ==> r.error == MalformedVarint || r.error == MalformedField
  {
    match WireTypeOf(k)
    case Fixed32Wire => DecodeFixed32(k, s)
    case Fixed64Wire => DecodeFixed64(k, s)
    case LengthDelimited => DecodeLengthDelimited(s)
    case VarintWire => DecodeVarintValue(k, s)
  }

  /** A 4-byte word: signed for sfixed32, unsigned otherwise. */
  function DecodeFixed32(k: FieldKind, s: seq<byte>): (r: Result<(Input, nat)>)
    ensures r.Ok? ==> r.value.1 == 4 <= |s| && r.value.0.IntIn?
    ensures r.Ok? && k.SFixed32? ==> InSigned(r.value.0.i, TWO_31)
    ensures r.Ok? && !k.SFixed32? ==> 0 <= r.value.0.i < TWO_32
    ensures r.Err? <==> |s| < 4
    ensures r.Err? ==> r.error == MalformedField
  {
    FixedWidth.WordSizes();
    match DecodeWord(s, 4)
    case Err(e) => Err(e)
    case Ok(p) => Ok((IntIn(if k.SFixed32? then ToSigned(p.0, TWO_31) else p.0), 4))
  }

  /** An 8-byte word: signed for sfixed64, unsigned otherwise. */
  function DecodeFixed64(k: FieldKind, s: seq<byte>): (r: Result<(Input, nat)>)
    ensures r.Ok? ==> r.value.1 == 8 <= |s| && r.value.0.IntIn?
    ensures r.Ok? && k.SFixed64? ==> InSigned(r.value.0.i, TWO_63)
    ensures r.Ok? && !k.SFixed64? ==> 0 <= r.value.0.i < TWO_64
    ensures r.Err? <==> |s| < 8
    ensures r.Err? ==> r.error == MalformedField
  {
    FixedWidth.WordSizes();
    match DecodeWord(s, 8)
    case Err(e) => Err(e)
    case Ok(p) => Ok((IntIn(if k.SFixed64? then ToSigned(p.0, TWO_63) else p.0), 8))
  }

  /** A length prefix, then that many bytes; a prefix longer than what
      remains is MalformedField. */
  function DecodeLengthDelimited(s: seq<byte>): (r: Result<(Input, nat)>)
    ensures r.Ok? ==> 1 <= r.value.1 <= |s| && r.value.0.StrIn?
    ensures r.Ok? ==> var n := |r.value.0.s|;
      && n <= r.value.1
      && Varint.Decode(s) == Ok((n, r.value.1 - n))
      && s[r.value.1 - n..r.value.1] == r.value.0.s
    ensures r.Err? <==> Varint.Decode(s).Err? || |s| - Varint.Decode(s).value.1 < Varint.Decode(s).value.0
    ensures r.Err? ==> r.error == MalformedVarint || r.error == MalformedField
  {
    match Varint.Decode(s)
    case Err(e) => Err(e)
    case Ok(p) =>
      if |s| - p.1 < p.0 then Err(MalformedField)
      else Ok((StrIn(s[p.1..p.1 + p.0]), p.1 + p.0))
  }

  function DecodeVarintValue(k: FieldKind, s: seq<byte>): (r: Result<(Input, nat)>)
    ensures r.Ok? ==> 1 <= r.value.1 <= |s|
    ensures r.Err? ==> r.error == MalformedVarint
  {
    match Varint.Decode(s)
    case Err(e) => Err(e)
    case Ok(p) => Ok((VarintInput(k, p.0), p.1))
  }

  /** The Ruby value a varint-typed field reads from a raw varint: the low
      64 bits, or the low 32 for the 32-bit kinds and enums, read as the
      kind's signed, unsigned or ZigZag word, so that the result always lies
      within the kind's bounds. */
  function VarintInput(k: FieldKind, raw: nat): (r: Input)
    ensures k.Bool? <==> r.BoolIn?
    ensures !k.Bool? ==> r.IntIn?
    ensures IsIntegerKind(k) && WireTypeOf(k) == VarintWire ==> Min(k) <= r.i <= Max(k)
    ensures k.Enum? ==> InSigned(r.i, TWO_31)
  {
    match k
    case Int64 => IntIn(ToSigned(raw % TWO_64, TWO_63))
    case UInt32 => IntIn(raw % TWO_32)
    case UInt64 => IntIn(raw % TWO_64)
    case SInt32 => IntIn(ZigZagDecode(raw % TWO_32))
    case SInt64 => IntIn(ZigZagDecode(raw % TWO_64))
    case Bool => BoolIn(raw != 0)
    case _ => IntIn(ToSigned(raw % TWO_32, TWO_31))
  }

  /** The Ruby value the decoder hands to the setter for a stored value:
      enums travel as their integer. */
  function WireInput(v: Value): Input {
    match v
    case EnumV(ev) => IntIn(ev.value)
    case _ => ToInput(v)
  }

  /** What the decoder reads for a field of any kind but enum is a value
      that kind's setter takes: truncation to the word keeps it in bounds.
      Only an enum number with no member can be refused. */
  lemma DecodedAdmitted(k: FieldKind, s: seq<byte>)
    requires OnWire(k) && DecodeValue(k, s).Ok?
    ensures !k.Enum? ==> Admit(k, DecodeValue(k, s).value.0).Ok?
  {
  }

  /** An integer or enum field reads only the low 64 bits of the varint
      that arrives, and a 32-bit kind or an enum only the low 32. (A bool
      reads any non-zero varint as true, so all its bits count.) */
  lemma VarintInputLowBits(k: FieldKind, raw: nat)
    requires !k.Bool?
    ensures VarintInput(k, raw) == VarintInput(k, raw % TWO_64)
    ensures !k.Int64? && !k.UInt64? && !k.SInt64? ==>
      VarintInput(k, raw) == VarintInput(k, raw % TWO_32)
  {
    var low := raw % TWO_64;
    assert low % TWO_64 == low;
    var q := raw / TWO_64;
    assert raw == (q * TWO_32) * TWO_32 + low;
    LowWord(raw, q * TWO_32, low);
  }

  /** Adding a multiple of 2^32 leaves the low 32 bits alone. */
  lemma LowWord(raw: nat, m: nat, low: nat)
    requires raw == m * TWO_32 + low
    ensures raw % TWO_32 == low % TWO_32
  {
    var l := low / TWO_32;
    assert low == l * TWO_32 + low % TWO_32;
    assert raw == (m + l) * TWO_32 + low % TWO_32;
  }

  lemma VarintRoundTrip(k: FieldKind, raw: nat, x: Input, rest: seq<byte>)
    requires OnWire(k) && WireTypeOf(k) == VarintWire
    requires raw < TWO_64 && VarintInput(k, raw) == x
    ensures DecodeValue(k, Varint.Encode(raw) + rest) == Ok((x, |Varint.Encode(raw)|))
  {
    Varint.RoundTrip(raw, rest);
  }

  lemma WordRoundTrip(n: nat, width: nat, rest: seq<byte>)
    requires n < FixedWidth.Pow256(width)
    ensures DecodeWord(FixedWidth.Encode(n, width) + rest, width) == Ok((n, width))
  {
    assert (FixedWidth.Encode(n, width) + rest)[..width] == FixedWidth.Encode(n, width);
  }

  /** A varint-typed payload is the varint of one 64-bit word from which
      the decoder recovers the value's Ruby form. */
  lemma VarintPayload(k: FieldKind, v: Value) returns (raw: nat)
    requires OnWire(k) && WellFormedKind(k) && Valid(k, v)
    requires WireTypeOf(k) == VarintWire
    ensures raw < TWO_64
    ensures EncodeValue(k, v) == Varint.Encode(raw)
    ensures VarintInput(k, raw) == WireInput(v)
  {
    match k {
      case Int32 => raw := TwosComplementPayload(k, v);
      case Int64 => raw := TwosComplementPayload(k, v);
      case SInt32 => raw := ZigZagPayload(k, v);
      case SInt64 => raw := ZigZagPayload(k, v);
      case Enum(_) => raw := EnumPayload(k, v);
      case _ => raw := PlainPayload(k, v);
    }
  }

  /** uint32, uint64 and bool write the value itself (a bool as 0 or 1). */
  lemma PlainPayload(k: FieldKind, v: Value) returns (raw: nat)
    requires (k.UInt32? || k.UInt64? || k.Bool?) && Valid(k, v)
    ensures raw < TWO_64
    ensures k.Bool? ==> raw == (if v.b then 1 else 0)
    ensures !k.Bool? ==> raw == v.i
    ensures EncodeValue(k, v) == Varint.Encode(raw)
    ensures VarintInput(k, raw) == WireInput(v)
  {
    raw := if k.Bool? then (if v.b then 1 else 0) else v.i;
  }

  /** int32 and int64 write the value modulo 2^64: a negative int32 is
      sign-extended to 64 bits. */
  lemma TwosComplementPayload(k: FieldKind, v: Value) returns (raw: nat)
    requires (k.Int32? || k.Int64?) && Valid(k, v)
    ensures raw < TWO_64 && raw == v.i % TWO_64
    ensures EncodeValue(k, v) == Varint.Encode(raw)
    ensures VarintInput(k, raw) == WireInput(v)
  {
    raw := ToUnsigned(v.i, TWO_63);
    WordModulo(v.i);
    if k.Int32? {
      Int32ThroughInt64(v.i);
    } else {
      SignedRoundTrip(v.i, TWO_63);
    }
  }

  /** sint32 and sint64 write the ZigZag image, which for sint32 fits 32
      bits. */
  lemma ZigZagPayload(k: FieldKind, v: Value) returns (raw: nat)
    requires (k.SInt32? || k.SInt64?) && Valid(k, v)
    ensures raw < TWO_64 && raw == ZigZagEncode(v.i)
    ensures k.SInt32? ==> raw < TWO_32
    ensures EncodeValue(k, v) == Varint.Encode(raw)
    ensures VarintInput(k, raw) == WireInput(v)
  {
    raw := ZigZagEncode(v.i);
    ZigZagRoundTrip(v.i);
    if k.SInt32? {
      ZigZagRange(v.i, TWO_31);
      assert raw % TWO_32 == raw;
    } else {
      ZigZagRange(v.i, TWO_63);
      assert raw % TWO_64 == raw;
    }
    assert EncodeValue(k, v) == Varint.Encode(ZigZagEncode(v.i));
  }

  /** An enum writes its member's integer as an int32 does: modulo 2^64. */
  lemma EnumPayload(k: FieldKind, v: Value) returns (raw: nat)
    requires k.Enum? && WellFormedKind(k) && Valid(k, v)
    ensures raw < TWO_64 && raw == v.e.value % TWO_64
    ensures EncodeValue(k, v) == Varint.Encode(raw)
    ensures VarintInput(k, raw) == WireInput(v)
  {
    MemberInRange(k.descriptor, v.e);
    Int32ThroughInt64(v.e.value);
    raw := ToUnsigned(v.e.value, TWO_63);
    WordModulo(v.e.value);
  }

  /** The 64-bit two's-complement word of a signed value is the value
      modulo 2^64. */
  lemma WordModulo(n: int)
    requires InSigned(n, TWO_63)
    ensures ToUnsigned(n, TWO_63) == n % TWO_64
  {
    if n < 0 {
      var u := n + TWO_64;
      assert 0 <= u < TWO_64;
      assert n == -1 * TWO_64 + u;
    }
  }

  /** The encoding guide's examples: -1 costs ten bytes as an int32 and one
      as a sint32; fixed32 writes 1 as four little-endian bytes. */
  lemma WireExamples()
    ensures EncodeValue(Int32, IntV(-1)) == [0xFF, 0xFF, 0xFF, 0xFF, 0xFF, 0xFF, 0xFF, 0xFF, 0xFF, 0x01]
    ensures EncodeValue(SInt32, IntV(-1)) == [0x01]
    ensures EncodeValue(Fixed32, IntV(1)) == [0x01, 0x00, 0x00, 0x00]
  {
    MinusOneInt32();
  }

  lemma MinusOneInt32()
    ensures EncodeValue(Int32, IntV(-1)) == [0xFF, 0xFF, 0xFF, 0xFF, 0xFF, 0xFF, 0xFF, 0xFF, 0xFF, 0x01]
  {
    assert Varint.Encode(1) == [0x01];
    Varint.EncodeStep(0xFF);
    Varint.EncodeStep(0x7FFF);
    Varint.EncodeStep(0x3FFFFF);
    Varint.EncodeStep(0x1FFFFFFF);
    Varint.EncodeStep(0xFFFFFFFFF);
    Varint.EncodeStep(0x7FFFFFFFFFF);
    Varint.EncodeStep(0x3FFFFFFFFFFFF);
    Varint.EncodeStep(0x1FFFFFFFFFFFFFF);
    Varint.EncodeStep(0xFFFFFFFFFFFFFFFF);
    assert ToUnsigned(-1, TWO_63) == 0xFFFF_FFFF_FFFF_FFFF;
  }

  lemma VarintKindRoundTrip(k: FieldKind, v: Value, rest: seq<byte>)
    requires OnWire(k) && WellFormedKind(k) && Valid(k, v)
    requires WireTypeOf(k) == VarintWire
    ensures DecodeVarintValue(k, EncodeValue(k, v) + rest) == Ok((WireInput(v), |EncodeValue(k, v)|))
  {
    var raw := VarintPayload(k, v);
    Varint.RoundTrip(raw, rest);
  }

  lemma FixedKindRoundTrip(k: FieldKind, v: Value, rest: seq<byte>)
    requires OnWire(k) && Valid(k, v)
    requires k.Fixed32? || k.SFixed32? || k.Fixed64? || k.SFixed64?
    ensures k.Fixed32? || k.SFixed32? ==>
      DecodeFixed32(k, EncodeValue(k, v) + rest) == Ok((WireInput(v), |EncodeValue(k, v)|))
    ensures k.Fixed64? || k.SFixed64? ==>
      DecodeFixed64(k, EncodeValue(k, v) + rest) == Ok((WireInput(v), |EncodeValue(k, v)|))
  {
    FixedWidth.WordSizes();
    match k {
      case Fixed32 => WordRoundTrip(v.i, 4, rest);
      case Fixed64 => WordRoundTrip(v.i, 8, rest);
      case SFixed32 =>
        SignedRoundTrip(v.i, TWO_31);
        WordRoundTrip(ToUnsigned(v.i, TWO_31), 4, rest);
      case SFixed64 =>
        SignedRoundTrip(v.i, TWO_63);
        WordRoundTrip(ToUnsigned(v.i, TWO_63), 8, rest);
    }
  }

  lemma BytesRoundTrip(b: seq<byte>, rest: seq<byte>)
    requires |b| < TWO_64
    ensures DecodeLengthDelimited(Varint.Encode(|b|) + b + rest)
         == Ok((StrIn(b), |Varint.Encode(|b|) + b|))
  {
    var pre := Varint.Encode(|b|);
    var s := pre + b + rest;
    assert s == pre + (b + rest);
    Varint.RoundTrip(|b|, b + rest);
    assert s[|pre|..|pre| + |b|] == b;
  }

  /** Decoding a payload gives back the Ruby value the stored one came from
      and consumes exactly the payload, whatever follows it. */
  lemma ValueRoundTrip(k: FieldKind, v: Value, rest: seq<byte>)
    requires OnWire(k) && WellFormedKind(k) && Valid(k, v) && Representable(v)
    ensures |EncodeValue(k, v)| >= 1
    ensures DecodeValue(k, EncodeValue(k, v) + rest) == Ok((WireInput(v), |EncodeValue(k, v)|))
  {
    match WireTypeOf(k) {
      case VarintWire => VarintKindRoundTrip(k, v, rest);
      case Fixed32Wire => FixedKindRoundTrip(k, v, rest);
      case Fixed64Wire => FixedKindRoundTrip(k, v, rest);
      case LengthDelimited =>
        assert EncodeValue(k, v) == Varint.Encode(|v.s|) + v.s;
        BytesRoundTrip(v.s, rest);
    }
  }

  /** The setter takes back what the decoder produced for a stored value,
      storing that same value. */
  lemma WireInputAdmitted(k: FieldKind, v: Value)
    requires WellFormedKind(k) && Valid(k, v)
    ensures Admit(k, WireInput(v)) == Ok(v)
  {
    if k.Enum? {
      MemberIsCanonical(k.descriptor, v.e);
    }
  }
}
