/** The tagged value stored in the table (`struct value`): a closed sum over
    nil, boolean, integer, real and custom, with a predicate per kind, a
    setter and a maker per kind, and an accessor per payload kind that is
    only defined when the tag matches. */
module Values {

  /** A 64-bit two's complement integer (`int64_t`). */
  newtype int64 = x: int | -0x8000_0000_0000_0000 <= x < 0x8000_0000_0000_0000

  /** A `double`, kept as its 64 bits and never interpreted. */
  type Double = bv64

  /** A `void *` owned by the caller: the table never dereferences or frees it. */
  type Handle = nat

  /** `enum value_kind` */
  datatype Kind = NIL | BOOLEAN | INTEGER | REAL | CUSTOM

  /** `struct value`: the tag travels with exactly one payload. */
  datatype Value =
    | Nil
    | Boolean(asBoolean: bool)
    | Integer(asInteger: int64)
    | Real(asReal: Double)
    | Custom(asCustom: Handle)

  /** value_get_kind */
  function GetKind(v: Value): Kind {
    match v
    case Nil => NIL
    case Boolean(_) => BOOLEAN
    case Integer(_) => INTEGER
    case Real(_) => REAL
    case Custom(_) => CUSTOM
  }

  predicate IsNil(v: Value) { GetKind(v) == NIL }
  predicate IsBoolean(v: Value) { GetKind(v) == BOOLEAN }
  predicate IsInteger(v: Value) { GetKind(v) == INTEGER }
  predicate IsReal(v: Value) { GetKind(v) == REAL }
  predicate IsCustom(v: Value) { GetKind(v) == CUSTOM }

  /** Exactly one kind predicate holds of every value. */
  lemma ExactlyOneKind(v: Value)
    ensures (if IsNil(v) then 1 else 0) + (if IsBoolean(v) then 1 else 0) +
            (if IsInteger(v) then 1 else 0) + (if IsReal(v) then 1 else 0) +
            (if IsCustom(v) then 1 else 0) == 1
  {
  }

  // value_make_*: each yields a value whose only kind is its own and whose
  // accessor gives back the payload.

  function MakeNil(): (r: Value)
    ensures IsNil(r) && !IsBoolean(r) && !IsInteger(r) && !IsReal(r) && !IsCustom(r)
  {
    Nil
  }

  function MakeBoolean(b: bool): (r: Value)
    ensures IsBoolean(r) && !IsNil(r) && !IsInteger(r) && !IsReal(r) && !IsCustom(r)
    ensures GetBoolean(r) == b
  {
    Boolean(b)
  }

  function MakeInteger(i: int64): (r: Value)
    ensures IsInteger(r) && !IsNil(r) && !IsBoolean(r) && !IsReal(r) && !IsCustom(r)
    ensures GetInteger(r) == i
  {
    Integer(i)
  }

  function MakeReal(d: Double): (r: Value)
    ensures IsReal(r) && !IsNil(r) && !IsBoolean(r) && !IsInteger(r) && !IsCustom(r)
    ensures GetReal(r) == d
  {
    Real(d)
  }

  function MakeCustom(h: Handle): (r: Value)
    ensures IsCustom(r) && !IsNil(r) && !IsBoolean(r) && !IsInteger(r) && !IsReal(r)
    ensures GetCustom(r) == h
  {
    Custom(h)
  }

  // value_get_*: the source asserts the tag; here the tag is a precondition,
  // and each accessor inverts its maker.

  function GetBoolean(v: Value): (b: bool)
    requires IsBoolean(v)
    ensures v == Boolean(b)
  {
    v.asBoolean
  }

  function GetInteger(v: Value): (i: int64)
    requires IsInteger(v)
    ensures v == Integer(i)
  {
    v.asInteger
  }

  function GetReal(v: Value): (d: Double)
    requires IsReal(v)
    ensures v == Real(d)
  {
    v.asReal
  }

  function GetCustom(v: Value): (h: Handle)
    requires IsCustom(v)
    ensures v == Custom(h)
  {
    v.asCustom
  }

  /** A `struct value` variable that the value_set_* functions write through
      a pointer: each setter replaces the tag and the payload together. */
  class ValueCell {
    var val: Value

    constructor ()
      ensures val == Nil
    {
      val := Nil;
    }

    method SetNil()
      modifies this
      ensures val == MakeNil() && IsNil(val)
    {
      val := Nil;
    }

    method SetBoolean(b: bool)
      modifies this
      ensures val == MakeBoolean(b) && IsBoolean(val) && GetBoolean(val) == b
    {
      val := Boolean(b);
    }

    method SetInteger(i: int64)
      modifies this
      ensures val == MakeInteger(i) && IsInteger(val) && GetInteger(val) == i
    {
      val := Integer(i);
    }

    method SetReal(d: Double)
      modifies this
      ensures val == MakeReal(d) && IsReal(val) && GetReal(val) == d
    {
      val := Real(d);
    }

    method SetCustom(h: Handle)
      modifies this
      ensures val == MakeCustom(h) && IsCustom(val) && GetCustom(val) == h
    {
      val := Custom(h);
    }
  }
}
