/** Enumerations: a descriptor per enum type, EnumValue as a named integer,
    Ruby's `==` between EnumValues and Integers, and integer arithmetic on
    an EnumValue. */
module Enums {
  import opened Common
  import Integers

  /** A Ruby Symbol, by its text. */
  datatype Symbol = Symbol(text: string)

  datatype EnumMember = EnumMember(name: Symbol, value: int)

  /** An enum type: its fully qualified name is its identity, its members
      are in declaration order. */
  datatype EnumDescriptor = EnumDescriptor(fullName: string, members: seq<EnumMember>)

  /** A named integer. The descriptor records which enum type it belongs to;
      ad-hoc values built only for comparison need not be members of it. */
  datatype EnumValue = EnumValue(descriptor: EnumDescriptor, name: Symbol, value: int)

  /** A schema-built enum: at least one member, names and values unique,
      values within the int32 range the wire format carries. */
  predicate WellFormed(d: EnumDescriptor) {
    && |d.members| >= 1
    && (forall i, j :: 0 <= i < j < |d.members| ==> d.members[i].name != d.members[j].name)
    && (forall i, j :: 0 <= i < j < |d.members| ==> d.members[i].value != d.members[j].value)
    && (forall i :: 0 <= i < |d.members| ==> Integers.InSigned(d.members[i].value, TWO_31))
  }

  /** The EnumValue the descriptor defines for its i-th member. */
  function Canonical(d: EnumDescriptor, i: nat): EnumValue
    requires i < |d.members|
  {
    EnumValue(d, d.members[i].name, d.members[i].value)
  }

  /** True when `ev` is one of the values `d` defines. */
  predicate IsMember(d: EnumDescriptor, ev: EnumValue) {
    && ev.descriptor == d
    && exists i :: 0 <= i < |d.members| && d.members[i] == EnumMember(ev.name, ev.value)
  }

  /** Position of the first member carrying value `v`. */
  function IndexOfValue(ms: seq<EnumMember>, v: int): (r: Option<nat>)
    ensures r.Some? ==> r.value < |ms| && ms[r.value].value == v
    ensures r.Some? ==> forall j :: 0 <= j < r.value ==> ms[j].value != v
    ensures r.None? <==> forall j :: 0 <= j < |ms| ==> ms[j].value != v
  {
    if |ms| == 0 then None
    else if ms[0].value == v then Some(0)
    else match IndexOfValue(ms[1..], v)
      case None => None
      case Some(k) => Some(k + 1)
  }

  /** Position of the first member named `name`. */
  function IndexOfName(ms: seq<EnumMember>, name: Symbol): (r: Option<nat>)
    ensures r.Some? ==> r.value < |ms| && ms[r.value].name == name
    ensures r.Some? ==> forall j :: 0 <= j < r.value ==> ms[j].name != name
    ensures r.None? <==> forall j :: 0 <= j < |ms| ==> ms[j].name != name
  {
    if |ms| == 0 then None
    else if ms[0].name == name then Some(0)
    else match IndexOfName(ms[1..], name)
      case None => None
      case Some(k) => Some(k + 1)
  }

  /** The enum's value for integer `v`, if it defines one. */
  function ByValue(d: EnumDescriptor, v: int): (r: Option<EnumValue>)
    ensures r.Some? ==> IsMember(d, r.value) && r.value.value == v
    ensures r.None? <==> forall j :: 0 <= j < |d.members| ==> d.members[j].value != v
  {
    match IndexOfValue(d.members, v)
    case None => None
    case Some(i) => Some(Canonical(d, i))
  }

  /** The enum's value named `name`, if it defines one. */
  function ByName(d: EnumDescriptor, name: Symbol): (r: Option<EnumValue>)
    ensures r.Some? ==> IsMember(d, r.value) && r.value.name == name
    ensures r.None? <==> forall j :: 0 <= j < |d.members| ==> d.members[j].name != name
  {
    match IndexOfName(d.members, name)
    case None => None
    case Some(i) => Some(Canonical(d, i))
  }

  /** In a well-formed enum, looking a member up by its value and by its
      name both find that same member. */
  lemma LookupsAgree(d: EnumDescriptor, i: nat)
    requires WellFormed(d) && i < |d.members|
    ensures ByValue(d, d.members[i].value) == Some(Canonical(d, i))
    ensures ByName(d, d.members[i].name) == Some(Canonical(d, i))
  {
    var iv := IndexOfValue(d.members, d.members[i].value);
    var iname := IndexOfName(d.members, d.members[i].name);
    assert iv.Some? && iv.value == i;
    assert iname.Some? && iname.value == i;
  }

  /** A member of a well-formed enum is the canonical value for its integer. */
  lemma MemberIsCanonical(d: EnumDescriptor, ev: EnumValue)
    requires WellFormed(d) && IsMember(d, ev)
    ensures ByValue(d, ev.value) == Some(ev)
  {
    var i :| 0 <= i < |d.members| && d.members[i] == EnumMember(ev.name, ev.value);
    LookupsAgree(d, i);
  }

  /** A member of a well-formed enum carries an int32. */
  lemma MemberInRange(d: EnumDescriptor, ev: EnumValue)
    requires WellFormed(d) && IsMember(d, ev)
    ensures Integers.InSigned(ev.value, TWO_31)
  {
    var i :| 0 <= i < |d.members| && d.members[i] == EnumMember(ev.name, ev.value);
  }

  /** The default an unset enum field reads as: the first declared member. */
  function DefaultValue(d: EnumDescriptor): (r: EnumValue)
    requires WellFormed(d)
    ensures IsMember(d, r)
  {
    Canonical(d, 0)
  }

  /** Either operand of a Ruby `==` this model covers. */
  datatype Operand = IntOperand(i: int) | EnumOperand(ev: EnumValue)

  /** EnumValue#==: another EnumValue is compared by value, anything else
      is compared with the underlying integer. */
  predicate EnumEquals(ev: EnumValue, other: Operand) {
    match other
    case EnumOperand(o) => ev.value == o.value
    case IntOperand(i) => ev.value == i
  }

  /** Integer#==: an Integer compares numerically; a non-numeric right
      operand is asked to compare itself with the receiver instead. */
  predicate IntegerEquals(i: int, other: Operand) {
    match other
    case IntOperand(j) => i == j
    case EnumOperand(o) => EnumEquals(o, IntOperand(i))
  }

  /** `a == b`, dispatched on the class of the receiver as Ruby does.
      Equality is decided by the integer values alone, whatever mix of
      EnumValues and Integers is compared and whatever their descriptors. */
  predicate Equals(a: Operand, b: Operand): (r: bool)
    ensures r <==> ValueOf(a) == ValueOf(b)
  {
    match a
    case IntOperand(i) => IntegerEquals(i, b)
    case EnumOperand(ev) => EnumEquals(ev, b)
  }

  function ValueOf(a: Operand): int {
    match a
    case IntOperand(i) => i
    case EnumOperand(ev) => ev.value
  }

  /** `a == b` and `b == a` always agree. */
  lemma EqualsSymmetric(a: Operand, b: Operand)
    ensures Equals(a, b) <==> Equals(b, a)
  {
  }

  lemma EqualsTransitive(a: Operand, b: Operand, c: Operand)
    requires Equals(a, b) && Equals(b, c)
    ensures Equals(a, c)
  {
  }

  /** EnumValue#+: integer arithmetic; the result is a plain Integer, not
      checked against the enum's members. */
  function Plus(ev: EnumValue, k: int): (r: int)
    ensures Equals(IntOperand(r - k), EnumOperand(ev))
  {
    ev.value + k
  }

  /** EnumValue#to_s: the member's name as text. */
  function ToS(ev: EnumValue): string {
    ev.name.text
  }
}
