// nanopb messages: descriptor lists and the structures they describe, static fields only.
module PbTypes {
  import opened Octets
  import opened PbWire

  datatype LType = Varint | UVarint | SVarint | Fixed32 | Fixed64 | Bytes | String | Submessage | FixedBytes

  // Implicit is the proto3 form of optional, without a has_ flag.
  datatype HType = Required | Optional | Implicit | Repeated | Oneof(group: nat)

  datatype Value = Num(n: int) | Blob(bytes: seq<byte>) | Msg(slots: seq<Slot>)

  // What a structure holds for one field: nothing (has_ is false, or the oneof holds another
  // alternative), one value, or the first count entries of an array.
  datatype Slot = Absent | One(v: Value) | Many(vs: seq<Value>)

  datatype Field = Field(tag: nat, ltype: LType, htype: HType, size: nat, arraySize: nat, sub: seq<Field>, dflt: Value)

  const SIZE_MAX: nat := 0xFFFF
  const BYTES_HEADER: nat := 2
  const MAX_REQUIRED: nat := 64

  predicate Packable(t: LType) {
    t.Varint? || t.UVarint? || t.SVarint? || t.Fixed32? || t.Fixed64?
  }

  // Half the range of a signed integer of the given size.
  function Half(size: nat): int {
    if size == 1 then 0x80 else if size == 2 then 0x8000 else if size == 4 then TWO31 else if size == 8 then TWO63 else 0
  }

  function Zeros(n: nat): (s: seq<byte>)
    ensures |s| == n
  {
    seq(n, i => 0)
  }

  function ZeroOf(f: Field): Value
    decreases f, 1
  {
    if Packable(f.ltype) then Num(0)
    else if f.ltype.FixedBytes? then Blob(Zeros(f.size))
    else if f.ltype.Submessage? then Msg(Defaults(f.sub))
    else Blob([])
  }

  function DefaultOf(f: Field): Value
    decreases f, 1
  {
    if f.ltype.Submessage? then Msg(Defaults(f.sub)) else f.dflt
  }

  function DefaultSlot(f: Field): Slot
    decreases f, 2
  {
    match f.htype
    case Required => One(DefaultOf(f))
    case Implicit => One(DefaultOf(f))
    case Optional => Absent
    case Oneof(_) => Absent
    case Repeated => Many([])
  }

  function Defaults(fs: seq<Field>): (m: seq<Slot>)
    ensures |m| == |fs|
    decreases fs, 3
  {
    seq(|fs|, i requires 0 <= i < |fs| => DefaultSlot(fs[i]))
  }

  // ---- What the C types and the generator guarantee ----

  predicate ValidField(f: Field) {
    && 0 < f.tag <= SIZE_MAX && f.size <= SIZE_MAX && f.arraySize <= SIZE_MAX
    && (f.ltype in {Varint, UVarint, SVarint} ==> Half(f.size) > 0)
    && (f.ltype.String? ==> f.size > 0)
    && (f.ltype.Submessage? ==> ValidFields(f.sub))
    && (f.htype.Implicit? ==> DefaultOf(f) == ZeroOf(f))
    && (!f.ltype.Submessage? ==> TypedValue(f, f.dflt))
  }

  predicate ValidFields(fs: seq<Field>) {
    && (forall i :: 0 <= i < |fs| ==> ValidField(fs[i]))
    && (forall i, j :: 0 <= i < j < |fs| ==> fs[i].tag != fs[j].tag)
  }

  // A value of the field's C type. A string is what precedes its terminator, which may be
  // missing.
  predicate TypedValue(f: Field, v: Value)
    decreases f, 1
  {
    match f.ltype
    case Varint => v.Num? && -Half(f.size) <= v.n < Half(f.size)
    case SVarint => v.Num? && -Half(f.size) <= v.n < Half(f.size)
    case UVarint => v.Num? && 0 <= v.n < 2 * Half(f.size)
    case Fixed32 => v.Num? && 0 <= v.n < TWO32
    case Fixed64 => v.Num? && 0 <= v.n < TWO64
    case Bytes => v.Blob? && |v.bytes| <= SIZE_MAX
    case String => v.Blob? && |v.bytes| <= f.size && 0 !in v.bytes
    case FixedBytes => v.Blob? && |v.bytes| == f.size
    case Submessage => v.Msg? && TypedMessage(f.sub, v.slots)
  }

  predicate TypedSlot(f: Field, s: Slot)
    decreases f, 2
  {
    match f.htype
    case Required => s.One? && TypedValue(f, s.v)
    case Implicit => s.One? && TypedValue(f, s.v)
    case Optional => !s.Many? && (s.One? ==> TypedValue(f, s.v))
    case Oneof(_) => !s.Many? && (s.One? ==> TypedValue(f, s.v))
    case Repeated => s.Many? && |s.vs| <= SIZE_MAX && forall i :: 0 <= i < |s.vs| ==> TypedValue(f, s.vs[i])
  }

  predicate SameGroup(f: Field, g: Field) {
    f.htype.Oneof? && g.htype == f.htype
  }

  predicate TypedMessage(fs: seq<Field>, m: seq<Slot>)
    decreases fs, 3
  {
    && |m| == |fs|
    && (forall i :: 0 <= i < |fs| ==> TypedSlot(fs[i], m[i]))
    && (forall i, j :: 0 <= i < j < |fs| && SameGroup(fs[i], fs[j]) && m[i].One? ==> m[j].Absent?)
  }
}
