// What was decoded can be encoded again, and decodes to the same message once more.
module PbReencode {
  import opened Octets
  import opened Wrappers
  import opened PbWire
  import opened PbTypes
  import opened PbFormat
  import opened PbShape
  import opened PbRoundTrip

  lemma {:induction false} ValueEncodes(f: Field, v: Value)
    requires ValidField(f) && TypedValue(f, v) && FitsValue(f, v)
    ensures EncValue(f, v).Some? && Terminated(f, v)
    decreases v, 1
  {
    if f.ltype.Submessage? {
      FieldsEncode(f.sub, v.slots, 0);
    }
  }

  lemma {:induction false} EntriesEncode(f: Field, vs: seq<Value>)
    requires ValidField(f) && forall i :: 0 <= i < |vs| ==> TypedValue(f, vs[i]) && FitsValue(f, vs[i])
    ensures EncEntries(f, vs).Some? && TerminatedAll(f, vs)
    decreases vs, 2
  {
    hide EncValue, Terminated, TypedValue, FitsValue, ValidField;
    if |vs| > 0 {
      ValueEncodes(f, vs[0]);
      EntriesEncode(f, vs[1..]);
    }
  }

  lemma {:induction false} SlotEncodes(f: Field, s: Slot)
    requires ValidField(f) && TypedSlot(f, s) && FitsSlot(f, s)
    ensures EncSlot(f, s).Some? && TerminatedSlot(f, s)
    decreases s, 3
  {
    hide EncValue, EncEntries, EncNumbers, Terminated, TypedValue, FitsValue, ValidField, IsZero;
    match s
    case Absent =>
    case One(v) => ValueEncodes(f, v);
    case Many(vs) => EntriesEncode(f, vs);
  }

  lemma {:induction false} FieldsEncode(fs: seq<Field>, m: seq<Slot>, i: nat)
    requires ValidFields(fs) && TypedMessage(fs, m) && Fits(fs, m) && i <= |fs|
    ensures EncFields(fs, m, i).Some? && TerminatedFrom(fs, m, i)
    decreases m, 4, |fs| - i
  {
    hide EncSlot, TerminatedSlot, TypedSlot, FitsSlot, ValidField;
    if i < |fs| {
      SlotEncodes(fs[i], m[i]);
      FieldsEncode(fs, m, i + 1);
    }
  }

  // Any bytes that decode at all, canonical or not, decode to a message that can be encoded, and
  // whose encoding decodes to that message and nothing else.
  lemma DecodedSurvives(fs: seq<Field>, s: seq<byte>)
    requires ValidFields(fs) && DefaultsFit(fs) && Decode(fs, s).Some?
    ensures var m := Decode(fs, s).value.0;
            && TypedMessage(fs, m) && Fits(fs, m) && Encode(fs, m).Some?
            && (|Encode(fs, m).value| < TWO32 ==> Decode(fs, Encode(fs, m).value) == Some((m, [])))
  {
    hide DecodeOnto, TypedMessage, Fits, DefaultsFit, ValidFields, EncFields, TerminatedFrom, Defaults;
    DefaultsTyped(fs);
    DecodedSound(fs, Defaults(fs), s);
    var m := Decode(fs, s).value.0;
    FieldsEncode(fs, m, 0);
    if |Encode(fs, m).value| < TWO32 {
      MessageRoundTrip(fs, m);
    }
  }
}
