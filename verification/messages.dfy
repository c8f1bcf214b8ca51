/** Messages: a field table built by the schema, the values a message
    instance holds, field assignment and reading, and the serialize / parse
    pair that writes and reads tag-prefixed fields. */
module Messages {
  import opened Common
  import Varint
  import opened Fields

  datatype Label = Required | Optional | Repeated

  datatype FieldDescriptor = FieldDescriptor(number: nat, name: string, cardinality: Label, kind: FieldKind)

  type FieldTable = seq<FieldDescriptor>

  /** The largest field number a tag can carry (2^29 - 1). */
  const MAX_FIELD_NUMBER: nat := 0x1FFF_FFFF

  /** A table the schema could have built: field numbers in range and
      unique, enum descriptors well formed, every kind one this model can
      put on the wire. */
  predicate WellFormedTable(t: FieldTable) {
    && (forall i :: 0 <= i < |t| ==>
          1 <= t[i].number <= MAX_FIELD_NUMBER && OnWire(t[i].kind) && WellFormedKind(t[i].kind))
    && (forall i, j :: 0 <= i < j < |t| ==> t[i].number != t[j].number)
  }

  /** What a present field holds: one value, or the non-empty sequence of a
      repeated field's values in insertion order. */
  datatype FieldState = Single(v: Value) | Many(vs: seq<Value>)

  /** A message instance: field number to present state. An absent key is
      an unset field; an absent repeated field is the empty sequence. */
  type Message = map<nat, FieldState>

  predicate StateFits(fd: FieldDescriptor, st: FieldState) {
    match st
    case Single(v) => fd.cardinality != Repeated && Valid(fd.kind, v)
    case Many(vs) =>
      && fd.cardinality == Repeated
      && |vs| >= 1
      && forall j :: 0 <= j < |vs| ==> Valid(fd.kind, vs[j])
  }

  predicate InTable(t: FieldTable, n: nat) {
    exists i :: 0 <= i < |t| && t[i].number == n
  }

  /** The invariant assignment and parsing keep: only the table's fields
      are present, each with a state its label and kind allow. */
  predicate ValidMessage(t: FieldTable, m: Message) {
    && (forall n :: n in m ==> InTable(t, n))
    && (forall i :: 0 <= i < |t| && t[i].number in m ==> StateFits(t[i], m[t[i].number]))
  }

  /** Every string and bytes value is short enough for a 64-bit length. */
  predicate Encodable(m: Message) {
    forall n :: n in m ==>
      match m[n]
      case Single(v) => Representable(v)
      case Many(vs) => forall j :: 0 <= j < |vs| ==> Representable(vs[j])
  }

  /** The descriptor for a field number, if the table has one. */
  function Lookup(t: FieldTable, number: nat): (r: Option<FieldDescriptor>)
    ensures r.Some? ==> r.value in t && r.value.number == number
    ensures r.None? <==> !InTable(t, number)
  {
    if |t| == 0 then None
    else if t[0].number == number then Some(t[0])
    else
      var r := Lookup(t[1..], number);
      assert r.None? ==> forall i :: 1 <= i < |t| ==> t[i].number == t[1..][i - 1].number;
      r
  }

  lemma LookupFinds(t: FieldTable, fd: FieldDescriptor)
    requires WellFormedTable(t) && fd in t
    ensures Lookup(t, fd.number) == Some(fd)
  {
    var r := Lookup(t, fd.number);
    var i :| 0 <= i < |t| && t[i] == fd;
    var j :| 0 <= j < |t| && t[j] == r.value;
    assert i == j;
  }

  // ---------------------------------------------------------------------
  // Assignment and reading

  /** Assigns each element of a Ruby Array through the gate; the first
      refused element decides the error. */
  function AdmitAll(k: FieldKind, items: seq<Input>): (r: Result<seq<Value>>)
    ensures r.Ok? ==> |r.value| == |items|
    ensures r.Ok? ==> forall j :: 0 <= j < |items| ==> Admit(k, items[j]) == Ok(r.value[j])
    ensures r.Err? <==> exists j :: 0 <= j < |items| && Admit(k, items[j]).Err?
    ensures r.Err? ==> r.error == TypeError || r.error == RangeError
  {
    if |items| == 0 then Ok([])
    else
      match Admit(k, items[0])
      case Err(e) => Err(e)
      case Ok(v) =>
        match AdmitAll(k, items[1..])
        case Err(e) =>
          var j :| 0 <= j < |items[1..]| && Admit(k, items[1..][j]).Err?;
          assert Admit(k, items[j + 1]).Err?;
          Err(e)
        case Ok(vs) =>
          assert forall j :: 1 <= j < |items| ==> items[j] == items[1..][j - 1];
          Ok([v] + vs)
  }

  /** The field setter. A singular field stores what the gate returns, or
      is cleared by nil where the kind allows it; a repeated field takes a
      Ruby Array whose elements all pass the gate. */
  function Assign(fd: FieldDescriptor, m: Message, x: Input): (r: Result<Message>)
    ensures r.Ok? ==> forall n :: n != fd.number ==> (n in r.value <==> n in m)
    ensures r.Ok? ==> forall n :: n != fd.number && n in m ==> r.value[n] == m[n]
    ensures r.Ok? && fd.number in r.value ==> StateFits(fd, r.value[fd.number])
    ensures fd.cardinality != Repeated ==> (r.Err? <==> Coerce(fd.kind, x).Err?)
    ensures r.Err? ==> r.error == TypeError || r.error == RangeError
  {
    if fd.cardinality == Repeated then
      match x
      case ListIn(items) =>
        (match AdmitAll(fd.kind, items)
         case Err(e) => Err(e)
         case Ok(vs) => if |vs| == 0 then Ok(m - {fd.number}) else Ok(m[fd.number := Many(vs)]))
      case _ => Err(TypeError)
    else
      match Coerce(fd.kind, x)
      case Err(e) => Err(e)
      case Ok(Clear) => Ok(m - {fd.number})
      case Ok(Store(v)) => Ok(m[fd.number := Single(v)])
  }

  /** The field getter: the present state, or the empty sequence for a
      repeated field, or the kind's default for a singular one. */
  function Get(fd: FieldDescriptor, m: Message): (r: FieldState)
    requires WellFormedKind(fd.kind)
    requires fd.number in m ==> StateFits(fd, m[fd.number])
    ensures r.Many? <==> fd.cardinality == Repeated
    ensures r.Single? ==> Valid(fd.kind, r.v)
    ensures r.Many? ==> forall j :: 0 <= j < |r.vs| ==> Valid(fd.kind, r.vs[j])
  {
    if fd.number in m then m[fd.number]
    else if fd.cardinality == Repeated then Many([])
    else Single(Default(fd.kind))
  }

  /** Assignment keeps a message valid. */
  lemma AssignKeepsValid(t: FieldTable, fd: FieldDescriptor, m: Message, x: Input)
    requires WellFormedTable(t) && fd in t && ValidMessage(t, m)
    requires Assign(fd, m, x).Ok?
    ensures ValidMessage(t, Assign(fd, m, x).value)
  {
    var m' := Assign(fd, m, x).value;
    var i :| 0 <= i < |t| && t[i] == fd;
    assert InTable(t, fd.number);
    forall j | 0 <= j < |t| && t[j].number in m'
      ensures StateFits(t[j], m'[t[j].number])
    {
      if t[j].number == fd.number {
        assert j == i;
      }
    }
  }

  /** Reading a singular field right after assigning it a non-nil value
      gives what the gate stored; assigning nil reads back the default. */
  lemma GetAfterAssign(fd: FieldDescriptor, m: Message, x: Input)
    requires WellFormedKind(fd.kind) && fd.cardinality != Repeated
    requires Assign(fd, m, x).Ok?
    ensures x.NilIn? ==> Get(fd, Assign(fd, m, x).value) == Single(Default(fd.kind))
    ensures !x.NilIn? ==> Get(fd, Assign(fd, m, x).value) == Single(Admit(fd.kind, x).value)
  {
  }

  // ---------------------------------------------------------------------
  // Serialization

  /** The tag of a field: `(number << 3) | wire_type`, which for a wire code
      below 8 is number * 8 + code. */
  function Tag(number: nat, w: WireType): (r: nat)
    ensures r / 8 == number && r % 8 == WireCode(w)
  {
    number * 8 + WireCode(w)
  }

  /** One tag-prefixed field value: a varint tag naming the field and its
      wire type, then the payload. */
  function Record(fd: FieldDescriptor, v: Value): (r: seq<byte>)
    requires OnWire(fd.kind) && WellFormedKind(fd.kind) && Valid(fd.kind, v)
    ensures |r| >= 2
    ensures Varint.DecodeGroups(r, |r|).Ok?
    ensures Varint.DecodeGroups(r, |r|).value.0 == Tag(fd.number, WireTypeOf(fd.kind))
  {
    var tb := Varint.Encode(Tag(fd.number, WireTypeOf(fd.kind)));
    var payload := EncodeValue(fd.kind, v);
    Varint.DecodeWellTerminated(tb, payload, |tb| + |payload|);
    tb + payload
  }

  /** The encoding guide's first example: field 1 holding 150 as a uint32
      is the three bytes 08 96 01. */
  lemma Record150()
    ensures Record(FieldDescriptor(1, "a", Optional, UInt32), IntV(150)) == [0x08, 0x96, 0x01]
  {
    Varint.EncodeStep(150);
  }

  /** The records of a repeated field, one per element, in order (each
      element its own record; packed encoding is not modelled). */
  function Records(fd: FieldDescriptor, vs: seq<Value>): seq<byte>
    requires OnWire(fd.kind) && WellFormedKind(fd.kind)
    requires forall j :: 0 <= j < |vs| ==> Valid(fd.kind, vs[j])
  {
    if |vs| == 0 then [] else Record(fd, vs[0]) + Records(fd, vs[1..])
  }

  /** What the message holds for `fd`, on the wire: nothing when unset. */
  function FieldBytes(fd: FieldDescriptor, m: Message): (r: seq<byte>)
    requires OnWire(fd.kind) && WellFormedKind(fd.kind)
    requires fd.number in m ==> StateFits(fd, m[fd.number])
    ensures r == [] <==> fd.number !in m
  {
    if fd.number !in m then []
    else
      match m[fd.number]
      case Single(v) => Record(fd, v)
      case Many(vs) => Records(fd, vs)
  }

  predicate MissingRequired(t: FieldTable, m: Message) {
    exists i :: 0 <= i < |t| && t[i].cardinality == Required && t[i].number !in m
  }

  /** The fields of `t` that can be written from `m`. */
  predicate Emittable(t: FieldTable, m: Message) {
    forall i :: 0 <= i < |t| ==>
      && OnWire(t[i].kind) && WellFormedKind(t[i].kind)
      && (t[i].number in m ==> StateFits(t[i], m[t[i].number]))
  }

  /** Writes the fields of `t` in table order; an unset REQUIRED field is
      an EncodingError. */
  function SerializeFields(t: FieldTable, m: Message): (r: Result<seq<byte>>)
    requires Emittable(t, m)
    ensures r.Err? <==> MissingRequired(t, m)
    ensures r.Err? ==> r.error == EncodingError
  {
    if |t| == 0 then Ok([])
    else if t[0].number !in m && t[0].cardinality == Required then Err(EncodingError)
    else
      match SerializeFields(t[1..], m)
      case Err(e) =>
        var i :| 0 <= i < |t[1..]| && t[1..][i].cardinality == Required && t[1..][i].number !in m;
        assert t[i + 1] == t[1..][i];
        Err(e)
      case Ok(rest) =>
        assert forall i :: 1 <= i < |t| ==> t[i] == t[1..][i - 1];
        Ok(FieldBytes(t[0], m) + rest)
  }

  /** serialize_to_string: the message's fields in table order, each
      present value as a tag and a payload. */
  function Serialize(t: FieldTable, m: Message): (r: Result<seq<byte>>)
    requires WellFormedTable(t) && ValidMessage(t, m)
    ensures r.Err? <==> MissingRequired(t, m)
    ensures r.Err? ==> r.error == EncodingError
  {
    SerializeFields(t, m)
  }

  // ---------------------------------------------------------------------
  // Parsing

  /** The length of an unknown field's payload, told by its wire code
      alone: a varint, 8 bytes, a length-prefixed run, or 4 bytes. */
  function SkipLength(code: nat, s: seq<byte>): (r: Result<nat>)
    ensures r.Ok? ==> r.value <= |s|
    ensures r.Err? ==> r.error == MalformedVarint || r.error == MalformedField
  {
    if code == 0 then
      match Varint.Decode(s)
      case Err(e) => Err(e)
      case Ok(p) => Ok(p.1)
    else if code == 1 then
      if |s| < 8 then Err(MalformedField) else Ok(8)
    else if code == 2 then
      match DecodeLengthDelimited(s)
      case Err(e) => Err(e)
      case Ok(p) => Ok(p.1)
    else if code == 5 then
      if |s| < 4 then Err(MalformedField) else Ok(4)
    else Err(MalformedField)
  }

  /** The values a repeated field has gathered so far. */
  function Existing(acc: Message, n: nat): seq<Value> {
    if n in acc && acc[n].Many? then acc[n].vs else []
  }

  /** Records a parsed value: a singular field is overwritten, a repeated
      one gains the value at its end. */
  function Store(acc: Message, fd: FieldDescriptor, v: Value): (r: Message)
    ensures fd.number in r
    ensures fd.cardinality != Repeated ==> r[fd.number] == Single(v)
    ensures fd.cardinality == Repeated ==> r[fd.number] == Many(Existing(acc, fd.number) + [v])
    ensures forall n :: n != fd.number ==> (n in r <==> n in acc)
    ensures forall n :: n != fd.number && n in acc ==> r[n] == acc[n]
  {
    if fd.cardinality == Repeated then acc[fd.number := Many(Existing(acc, fd.number) + [v])]
    else acc[fd.number := Single(v)]
  }

  /** What one record does to the message being parsed: a known field
      stores the value the setter produced; an unknown one is skipped. */
  datatype Step = Skip | Read(fd: FieldDescriptor, v: Value)

  /** The errors parsing can report: the assignment errors never arise but
      for an enum number with no member. */
  predicate ParseError(e: Error) {
    e == MalformedVarint || e == MalformedField || e == TruncatedMessage
    || e == WireTypeMismatch || e == TypeError
  }

  /** The record at the front of `s` starts with a tag naming an enum field
      of the table. */
  predicate TagNamesEnum(t: FieldTable, s: seq<byte>) {
    && Varint.Decode(s).Ok?
    && Lookup(t, Varint.Decode(s).value.0 / 8).Some?
    && Lookup(t, Varint.Decode(s).value.0 / 8).value.kind.Enum?
  }

  /** Reads the record at the front of `s`: its tag, then either the
      payload of a known field, checked against the field's wire type and
      passed through the setter, or an unknown field's payload, skipped by
      its wire type alone. Returns the step and the bytes consumed. */
  function ReadRecord(t: FieldTable, s: seq<byte>): (r: Result<(Step, nat)>)
    requires WellFormedTable(t)
    ensures r.Ok? ==> 1 <= r.value.1 <= |s|
    ensures r.Ok? && r.value.0.Read? ==> r.value.0.fd in t && Valid(r.value.0.fd.kind, r.value.0.v)
    ensures r.Err? ==> ParseError(r.error)
  {
    match Varint.Decode(s)
    case Err(e) => Err(e)
    case Ok(tp) =>
      var rest := s[tp.1..];
      var number := tp.0 / 8;
      var code := tp.0 % 8;
      match Lookup(t, number)
      case None =>
        (match SkipLength(code, rest)
         case Err(e) => Err(e)
         case Ok(n) => Ok((Skip, tp.1 + n)))
      case Some(fd) =>
        match ReadKnown(fd, code, rest)
        case Err(e) => Err(e)
        case Ok(q) => Ok((Read(fd, q.0), tp.1 + q.1))
  }

  /** Reads the payload of a known field that arrived with wire code
      `code`: the code must be the field's own, a payload must follow, and
      what it decodes to must pass the setter. Only an enum field can refuse
      a payload that decodes. */
  function ReadKnown(fd: FieldDescriptor, code: nat, s: seq<byte>): (r: Result<(Value, nat)>)
    requires OnWire(fd.kind) && WellFormedKind(fd.kind)
    ensures r.Ok? ==> 1 <= r.value.1 <= |s| && Valid(fd.kind, r.value.0)
    ensures r.Err? ==> ParseError(r.error)
    ensures r == Err(TypeError) ==> fd.kind.Enum?
    ensures code != WireCode(WireTypeOf(fd.kind)) ==> r == Err(WireTypeMismatch)
  {
    if code != WireCode(WireTypeOf(fd.kind)) then Err(WireTypeMismatch)
    else if |s| == 0 then Err(TruncatedMessage)
    else
      match DecodeValue(fd.kind, s)
      case Err(e) => Err(e)
      case Ok(dp) =>
        match Admit(fd.kind, dp.0)
        case Err(e) => DecodedAdmitted(fd.kind, s); Err(e)
        case Ok(v) => Ok((v, dp.1))
  }

  /** What one step does to the message being parsed. */
  function Apply(acc: Message, st: Step): Message {
    match st
    case Skip => acc
    case Read(fd, v) => Store(acc, fd, v)
  }

  /** Reads records until the bytes run out, storing each known field
      through the assignment gate and skipping unknown ones. */
  function ParseFields(t: FieldTable, s: seq<byte>, acc: Message): (r: Result<Message>)
    requires WellFormedTable(t)
    ensures r.Ok? && ValidMessage(t, acc) ==> ValidMessage(t, r.value)
    ensures r.Err? ==> ParseError(r.error)
    ensures r == Err(TypeError) ==> HasEnumField(t)
    decreases |s|
  {
    if |s| == 0 then Ok(acc)
    else
      match ReadRecord(t, s)
      case Err(e) =>
        if e == TypeError then ReadRecordTypeError(t, s); Err(e) else Err(e)
      case Ok(p) =>
        var acc' := Apply(acc, p.0);
        assert ValidMessage(t, acc) ==> ValidMessage(t, acc') by {
          if p.0.Read? {
            StoreKeepsValid(t, acc, p.0.fd, p.0.v);
          }
        }
        ParseFields(t, s[p.1..], acc')
  }

  predicate HasEnumField(t: FieldTable) {
    exists i :: 0 <= i < |t| && t[i].kind.Enum?
  }

  /** A record is refused with TypeError only when its tag names an enum
      field: the setter takes whatever the decoder reads for every other
      kind. */
  lemma ReadRecordTypeError(t: FieldTable, s: seq<byte>)
    requires WellFormedTable(t) && ReadRecord(t, s) == Err(TypeError)
    ensures TagNamesEnum(t, s)
    ensures HasEnumField(t)
  {
    var tp := Varint.Decode(s).value;
    var fd := Lookup(t, tp.0 / 8).value;
    var i :| 0 <= i < |t| && t[i] == fd;
    assert t[i].kind.Enum?;
  }

  lemma StoreKeepsValid(t: FieldTable, acc: Message, fd: FieldDescriptor, v: Value)
    requires WellFormedTable(t) && fd in t && Valid(fd.kind, v)
    ensures ValidMessage(t, acc) ==> ValidMessage(t, Store(acc, fd, v))
  {
    if ValidMessage(t, acc) {
      var i :| 0 <= i < |t| && t[i] == fd;
      assert InTable(t, fd.number);
      var r := Store(acc, fd, v);
      forall j | 0 <= j < |t| && t[j].number in r
        ensures StateFits(t[j], r[t[j].number])
      {
        if t[j].number == fd.number {
          assert j == i;
        }
      }
    }
  }

  /** parse_from_string. */
  function Parse(t: FieldTable, s: seq<byte>): (r: Result<Message>)
    requires WellFormedTable(t)
    ensures r.Ok? ==> ValidMessage(t, r.value)
    ensures r.Err? ==> ParseError(r.error)
    ensures r == Err(TypeError) ==> HasEnumField(t)
  {
    ParseFields(t, s, map[])
  }

  // ---------------------------------------------------------------------
  // Round trip

  /** Every tag of a schema field fits one 64-bit varint. */
  lemma TagFits(number: nat, w: WireType)
    requires number <= MAX_FIELD_NUMBER
    ensures Tag(number, w) < TWO_64
  {
  }

  /** Parsing one record of a known field stores its value and moves on. */
  lemma RecordParses(t: FieldTable, fd: FieldDescriptor, v: Value, rest: seq<byte>, acc: Message)
    requires WellFormedTable(t) && fd in t && Valid(fd.kind, v) && Representable(v)
    ensures ParseFields(t, Record(fd, v) + rest, acc) == ParseFields(t, rest, Store(acc, fd, v))
  {
    var s := Record(fd, v) + rest;
    RecordReads(t, fd, v, rest);
    assert s[|Record(fd, v)|..] == rest;
  }

  /** The record of a known field reads back as that field's value, and
      exactly the record's bytes are consumed. */
  lemma RecordReads(t: FieldTable, fd: FieldDescriptor, v: Value, rest: seq<byte>)
    requires WellFormedTable(t) && fd in t && Valid(fd.kind, v) && Representable(v)
    ensures ReadRecord(t, Record(fd, v) + rest).Ok?
    ensures ReadRecord(t, Record(fd, v) + rest).value.0 == Read(fd, v)
    ensures ReadRecord(t, Record(fd, v) + rest).value.1 == |Record(fd, v)|
  {
    var tag := Tag(fd.number, WireTypeOf(fd.kind));
    var payload := EncodeValue(fd.kind, v);
    var tl := RecordParts(fd, v, rest);
    var s := Record(fd, v) + rest;
    TagFits(fd.number, WireTypeOf(fd.kind));
    TagReads(tag, payload + rest, s);
    LookupFinds(t, fd);
    PayloadReads(fd, v, rest);
    KnownFieldReads(t, s, fd, tag, tl, v, |payload|);
  }

  /** A record followed by more bytes is its tag's varint, then the
      payload, then those bytes. */
  lemma RecordParts(fd: FieldDescriptor, v: Value, rest: seq<byte>) returns (tl: nat)
    requires OnWire(fd.kind) && WellFormedKind(fd.kind) && Valid(fd.kind, v)
    ensures tl == |Varint.Encode(Tag(fd.number, WireTypeOf(fd.kind)))|
    ensures |Record(fd, v)| == tl + |EncodeValue(fd.kind, v)|
    ensures Record(fd, v) + rest
         == Varint.Encode(Tag(fd.number, WireTypeOf(fd.kind))) + (EncodeValue(fd.kind, v) + rest)
  {
    tl := |Varint.Encode(Tag(fd.number, WireTypeOf(fd.kind)))|;
  }

  /** A tag's varint in front of a stream reads back as the tag. */
  lemma TagReads(tag: nat, tail: seq<byte>, s: seq<byte>)
    requires tag < TWO_64 && s == Varint.Encode(tag) + tail
    ensures Varint.Decode(s) == Ok((tag, |Varint.Encode(tag)|))
    ensures s[|Varint.Encode(tag)|..] == tail
  {
    Varint.RoundTrip(tag, tail);
  }

  /** A record whose tag names a known field, followed by a payload that
      field reads, stores what was read. */
  lemma KnownFieldReads(t: FieldTable, s: seq<byte>, fd: FieldDescriptor, tag: nat, tl: nat, v: Value, n: nat)
    requires WellFormedTable(t)
    requires Varint.Decode(s) == Ok((tag, tl))
    requires Lookup(t, tag / 8) == Some(fd)
    requires ReadKnown(fd, tag % 8, s[tl..]).Ok?
    requires ReadKnown(fd, tag % 8, s[tl..]).value.0 == v && ReadKnown(fd, tag % 8, s[tl..]).value.1 == n
    ensures ReadRecord(t, s).Ok?
    ensures ReadRecord(t, s).value.0 == Read(fd, v) && ReadRecord(t, s).value.1 == tl + n
  {
  }

  /** A field's own payload, whatever follows it, reads back as the value
      it was written from. */
  lemma PayloadReads(fd: FieldDescriptor, v: Value, rest: seq<byte>)
    requires OnWire(fd.kind) && WellFormedKind(fd.kind) && Valid(fd.kind, v) && Representable(v)
    ensures ReadKnown(fd, WireCode(WireTypeOf(fd.kind)), EncodeValue(fd.kind, v) + rest).Ok?
    ensures ReadKnown(fd, WireCode(WireTypeOf(fd.kind)), EncodeValue(fd.kind, v) + rest).value.0 == v
    ensures ReadKnown(fd, WireCode(WireTypeOf(fd.kind)), EncodeValue(fd.kind, v) + rest).value.1
         == |EncodeValue(fd.kind, v)|
  {
    ValueRoundTrip(fd.kind, v, rest);
    WireInputAdmitted(fd.kind, v);
  }

  /** A message of one record parses to that one singular field. */
  lemma OneRecordParses(t: FieldTable, fd: FieldDescriptor, v: Value)
    requires WellFormedTable(t) && fd in t && fd.cardinality != Repeated
    requires Valid(fd.kind, v) && Representable(v)
    ensures Parse(t, Record(fd, v)).Ok?
    ensures Parse(t, Record(fd, v)).value == map[fd.number := Single(v)]
  {
    RecordParses(t, fd, v, [], map[]);
    assert Record(fd, v) + [] == Record(fd, v);
    assert Store(map[], fd, v) == map[fd.number := Single(v)];
  }

  /** Stores a sequence of parsed values one after another. */
  function StoreAll(acc: Message, fd: FieldDescriptor, vs: seq<Value>): Message
    decreases |vs|
  {
    if |vs| == 0 then acc else StoreAll(Store(acc, fd, vs[0]), fd, vs[1..])
  }

  /** A repeated field gains parsed values at its end, in wire order. */
  lemma {:induction false} StoreAllAppends(acc: Message, fd: FieldDescriptor, vs: seq<Value>)
    requires fd.cardinality == Repeated && |vs| >= 1
    ensures StoreAll(acc, fd, vs) == acc[fd.number := Many(Existing(acc, fd.number) + vs)]
    decreases |vs|
  {
    var acc1 := Store(acc, fd, vs[0]);
    if |vs| > 1 {
      StoreAllAppends(acc1, fd, vs[1..]);
      assert Existing(acc1, fd.number) + vs[1..] == Existing(acc, fd.number) + vs;
    } else {
      assert vs == [vs[0]];
    }
  }

  lemma {:induction false} RecordsParse(t: FieldTable, fd: FieldDescriptor, vs: seq<Value>, rest: seq<byte>, acc: Message)
    requires WellFormedTable(t) && fd in t
    requires forall j :: 0 <= j < |vs| ==> Valid(fd.kind, vs[j]) && Representable(vs[j])
    ensures ParseFields(t, Records(fd, vs) + rest, acc) == ParseFields(t, rest, StoreAll(acc, fd, vs))
    decreases |vs|
  {
    if |vs| > 0 {
      var later := Records(fd, vs[1..]) + rest;
      var acc1 := Store(acc, fd, vs[0]);
      assert Records(fd, vs) + rest == Record(fd, vs[0]) + later;
      assert forall j :: 0 <= j < |vs[1..]| ==> vs[1..][j] == vs[j + 1];
      calc {
        ParseFields(t, Records(fd, vs) + rest, acc);
        ParseFields(t, Record(fd, vs[0]) + later, acc);
        { RecordParses(t, fd, vs[0], later, acc); }
        ParseFields(t, later, acc1);
        { RecordsParse(t, fd, vs[1..], rest, acc1); }
        ParseFields(t, rest, StoreAll(acc1, fd, vs[1..]));
      }
    } else {
      assert Records(fd, vs) + rest == rest;
    }
  }

  /** The part of a message that the fields of `sub` hold. */
  function Restrict(m: Message, sub: FieldTable): Message {
    map n | n in m && InTable(sub, n) :: m[n]
  }

  /** Parsing the bytes of one field of a message stores that field's
      state, when the parse had not seen the field before. */
  lemma FieldParses(t: FieldTable, fd: FieldDescriptor, m: Message, rest: seq<byte>, acc: Message)
    requires WellFormedTable(t) && ValidMessage(t, m) && Encodable(m)
    requires fd in t && fd.number !in acc
    ensures fd.number in m ==> StateFits(fd, m[fd.number])
    ensures ParseFields(t, FieldBytes(fd, m) + rest, acc)
         == ParseFields(t, rest, if fd.number in m then acc[fd.number := m[fd.number]] else acc)
  {
    var n := fd.number;
    var i :| 0 <= i < |t| && t[i] == fd;
    if n in m {
      assert StateFits(fd, m[n]);
      match m[n] {
        case Single(v) =>
          RecordParses(t, fd, v, rest, acc);
        case Many(vs) =>
          RecordsParse(t, fd, vs, rest, acc);
          StoreAllAppends(acc, fd, vs);
          assert Existing(acc, n) + vs == vs;
      }
    } else {
      assert FieldBytes(fd, m) + rest == rest;
    }
  }

  /** Adding one field's state, then the rest of a table's fields. */
  lemma RestrictStep(m: Message, sub: FieldTable, acc: Message)
    requires |sub| >= 1
    requires forall x :: InTable(sub, x) <==> x == sub[0].number || InTable(sub[1..], x)
    ensures (if sub[0].number in m then acc[sub[0].number := m[sub[0].number]] else acc)
            + Restrict(m, sub[1..]) == acc + Restrict(m, sub)
  {
  }

  /** Parsing what the fields of `sub` serialize to adds exactly their
      present values to what was parsed before. */
  lemma {:induction false} FieldsParse(t: FieldTable, sub: FieldTable, m: Message, acc: Message)
    requires WellFormedTable(t) && ValidMessage(t, m) && Encodable(m)
    requires forall i :: 0 <= i < |sub| ==> sub[i] in t
    requires forall i, j :: 0 <= i < j < |sub| ==> sub[i].number != sub[j].number
    requires forall n :: n in acc ==> !InTable(sub, n)
    requires Emittable(sub, m) && !MissingRequired(sub, m)
    ensures SerializeFields(sub, m).Ok?
    ensures ParseFields(t, SerializeFields(sub, m).value, acc) == Ok(acc + Restrict(m, sub))
    decreases |sub|
  {
    if |sub| == 0 {
      assert Restrict(m, sub) == map[];
      assert acc + map[] == acc;
    } else {
      var fd := sub[0];
      var n := fd.number;
      var tail := sub[1..];
      assert forall i :: 1 <= i < |sub| ==> sub[i] == tail[i - 1];
      assert forall x :: InTable(sub, x) <==> x == n || InTable(tail, x);
      assert !InTable(tail, n);
      var rest := SerializeFields(tail, m).value;
      assert SerializeFields(sub, m).value == FieldBytes(fd, m) + rest;
      FieldParses(t, fd, m, rest, acc);
      var acc' := if n in m then acc[n := m[n]] else acc;
      FieldsParse(t, tail, m, acc');
      RestrictStep(m, sub, acc);
    }
  }

  /** Serialize then parse gives back the message: every present field with
      its value, every repeated field with its values in order, and nothing
      else. */
  lemma RoundTrip(t: FieldTable, m: Message)
    requires WellFormedTable(t) && ValidMessage(t, m) && Encodable(m)
    requires !MissingRequired(t, m)
    ensures Serialize(t, m).Ok?
    ensures Parse(t, Serialize(t, m).value) == Ok(m)
  {
    forall i | 0 <= i < |t| ensures t[i] in t {}
    assert Emittable(t, m);
    FieldsParse(t, t, m, map[]);
    RestrictToTable(t, m);
  }

  lemma RestrictToTable(t: FieldTable, m: Message)
    requires ValidMessage(t, m)
    ensures map[] + Restrict(m, t) == m
  {
    assert Restrict(m, t) == m;
  }

  /** Skipping an unknown field consumes exactly what decoding a known field
      of the same wire type would. */
  lemma SkipAgreesWithDecode(k: FieldKind, s: seq<byte>)
    requires OnWire(k) && DecodeValue(k, s).Ok?
    ensures SkipLength(WireCode(WireTypeOf(k)), s) == Ok(DecodeValue(k, s).value.1)
  {
  }

  /** A field number the table does not know is skipped: parsing goes on
      with the bytes after it and the message is unchanged. */
  lemma UnknownFieldSkipped(t: FieldTable, number: nat, k: FieldKind, v: Value, rest: seq<byte>, acc: Message)
    requires WellFormedTable(t) && !InTable(t, number) && number <= MAX_FIELD_NUMBER
    requires OnWire(k) && WellFormedKind(k) && Valid(k, v) && Representable(v)
    ensures ParseFields(t, Varint.Encode(Tag(number, WireTypeOf(k))) + EncodeValue(k, v) + rest, acc)
         == ParseFields(t, rest, acc)
  {
    var tag := Tag(number, WireTypeOf(k));
    var tb := Varint.Encode(tag);
    var payload := EncodeValue(k, v);
    var s := tb + payload + rest;
    assert s == tb + (payload + rest);
    TagFits(number, WireTypeOf(k));
    Varint.RoundTrip(tag, payload + rest);
    assert s[|tb|..] == payload + rest;
    ValueRoundTrip(k, v, rest);
    SkipAgreesWithDecode(k, payload + rest);
    assert (payload + rest)[|payload|..] == rest;
  }

  /** A known field number arriving with another wire type is refused. */
  lemma MismatchedWireTypeFails(t: FieldTable, fd: FieldDescriptor, k: FieldKind, v: Value, rest: seq<byte>, acc: Message)
    requires WellFormedTable(t) && fd in t
    requires OnWire(k) && WellFormedKind(k) && Valid(k, v)
    requires WireTypeOf(k) != WireTypeOf(fd.kind)
    ensures ParseFields(t, Varint.Encode(Tag(fd.number, WireTypeOf(k))) + EncodeValue(k, v) + rest, acc)
         == Err(WireTypeMismatch)
  {
    var tag := Tag(fd.number, WireTypeOf(k));
    var tail := EncodeValue(k, v) + rest;
    var s := Varint.Encode(tag) + tail;
    assert Varint.Encode(tag) + EncodeValue(k, v) + rest == s;
    TagFits(fd.number, WireTypeOf(k));
    TagReads(tag, tail, s);
    LookupFinds(t, fd);
    assert ReadKnown(fd, tag % 8, tail) == Err(WireTypeMismatch);
    assert ReadRecord(t, s) == Err(WireTypeMismatch);
  }

  /** A known field's tag with nothing after it is a truncated message. */
  lemma TagAloneIsTruncated(t: FieldTable, fd: FieldDescriptor, acc: Message)
    requires WellFormedTable(t) && fd in t
    ensures ParseFields(t, Varint.Encode(Tag(fd.number, WireTypeOf(fd.kind))), acc) == Err(TruncatedMessage)
  {
    var tag := Tag(fd.number, WireTypeOf(fd.kind));
    TagFits(fd.number, WireTypeOf(fd.kind));
    Varint.RoundTrip(tag, []);
    assert Varint.Encode(tag) + [] == Varint.Encode(tag);
    LookupFinds(t, fd);
  }
}
