// Whatever bytes arrive, the decoder stores values of the fields' types, inside their buffers.
module PbShape {
  import opened Octets
  import opened PbWire
  import opened PbTypes
  import opened PbFormat

  // ---- Room ----

  // A value that its buffer holds: a string with its terminator, bytes with their size.
  predicate FitsValue(f: Field, v: Value)
    decreases v, 1
  {
    match f.ltype
    case Bytes => v.Blob? && |v.bytes| + BYTES_HEADER <= f.size
    case String => v.Blob? && |v.bytes| < f.size
    case Submessage => v.Msg? && Fits(f.sub, v.slots)
    case _ => true
  }

  predicate FitsSlot(f: Field, s: Slot)
    decreases s, 2
  {
    match s
    case Absent => true
    case One(v) => FitsValue(f, v)
    case Many(vs) => |vs| <= f.arraySize && forall i :: 0 <= i < |vs| ==> FitsValue(f, vs[i])
  }

  // Every array is within its capacity and every value within its buffer, at any depth.
  predicate Fits(fs: seq<Field>, m: seq<Slot>)
    decreases m, 3
  {
    |m| == |fs| && forall i :: 0 <= i < |fs| ==> FitsSlot(fs[i], m[i])
  }

  // The default values of the descriptor fit as well.
  predicate DefaultFits(f: Field)
    decreases f, 1
  {
    if f.ltype.Submessage? then DefaultsFit(f.sub) else FitsValue(f, f.dflt)
  }

  predicate DefaultsFit(fs: seq<Field>)
    decreases fs, 2
  {
    forall i :: 0 <= i < |fs| ==> DefaultFits(fs[i])
  }

  // ---- Well typed, and, if tight, with room ----

  predicate SoundValue(tight: bool, f: Field, v: Value) {
    TypedValue(f, v) && (tight ==> FitsValue(f, v))
  }

  predicate SoundSlot(tight: bool, f: Field, s: Slot) {
    TypedSlot(f, s) && (tight ==> FitsSlot(f, s))
  }

  predicate Sound(tight: bool, fs: seq<Field>, m: seq<Slot>) {
    TypedMessage(fs, m) && (tight ==> Fits(fs, m))
  }

  predicate Ready(tight: bool, f: Field) {
    ValidField(f) && (tight ==> DefaultFits(f))
  }

  predicate AllReady(tight: bool, fs: seq<Field>) {
    ValidFields(fs) && (tight ==> DefaultsFit(fs))
  }

  // ---- Defaults ----

  lemma {:induction false} DefaultSound(tight: bool, f: Field)
    requires Ready(tight, f)
    ensures SoundValue(tight, f, DefaultOf(f))
    decreases f, 1
  {
    if f.ltype.Submessage? {
      DefaultsSound(tight, f.sub);
    }
  }

  lemma SlotOfDefault(tight: bool, f: Field)
    requires SoundValue(tight, f, DefaultOf(f))
    ensures SoundSlot(tight, f, DefaultSlot(f))
  {
    hide DefaultOf, TypedValue, FitsValue;
  }

  lemma {:induction false} DefaultsSound(tight: bool, fs: seq<Field>)
    requires AllReady(tight, fs)
    ensures Sound(tight, fs, Defaults(fs))
    decreases fs, 2
  {
    forall i | 0 <= i < |fs| ensures SoundSlot(tight, fs[i], Defaults(fs)[i]) {
      DefaultSound(tight, fs[i]);
      assert Defaults(fs)[i] == DefaultSlot(fs[i]);
      SlotOfDefault(tight, fs[i]);
    }
  }

  lemma DefaultsTyped(fs: seq<Field>)
    requires ValidFields(fs)
    ensures TypedMessage(fs, Defaults(fs)) && (DefaultsFit(fs) ==> Fits(fs, Defaults(fs)))
  {
    DefaultsSound(false, fs);
    if DefaultsFit(fs) {
      DefaultsSound(true, fs);
    }
  }

  // ---- Single values ----

  lemma {:induction false} WordBound(s: seq<byte>)
    ensures FromLittleEndian(s) < Pow256(|s|)
  {
    if |s| > 0 {
      WordBound(s[1..]);
    }
  }

  lemma NumberSound(tight: bool, f: Field, s: seq<byte>)
    requires Packable(f.ltype) && DecNumber(f, s).Some?
    ensures SoundValue(tight, f, DecNumber(f, s).value.0)
  {
    hide Dec64, FromLittleEndian, Pow256, Half, AsInt32, AsInt64, UnZigZag;
    WordSizes();
    if f.ltype.Fixed32? {
      WordBound(Take(s, 4).value.0);
    } else if f.ltype.Fixed64? {
      WordBound(Take(s, 8).value.0);
    }
  }

  lemma {:induction false} CStringSound(s: seq<byte>)
    ensures |CString(s)| <= |s| && 0 !in CString(s)
  {
    if |s| > 0 {
      CStringSound(s[1..]);
    }
  }

  lemma BlobSound(tight: bool, f: Field, s: seq<byte>)
    requires f.ltype in {Bytes, String, FixedBytes} && DecBlob(f, s).Some?
    ensures SoundValue(tight, f, DecBlob(f, s).value.0)
  {
    hide Dec32, CString;
    var (size, t) := Dec32(s).value;
    if f.ltype.String? {
      CStringSound(Take(t, size).value.0);
    }
  }

  lemma {:induction false} PackedSound(tight: bool, f: Field, vs: seq<Value>, s: seq<byte>)
    requires Packable(f.ltype) && f.htype.Repeated? && f.arraySize <= SIZE_MAX
    requires SoundSlot(tight, f, Many(vs)) && DecPacked(f, vs, s).Some?
    ensures SoundSlot(tight, f, Many(DecPacked(f, vs, s).value))
    decreases |s|
  {
    hide DecNumber, TypedValue, FitsValue;
    if |s| > 0 {
      NumberSound(tight, f, s);
      var d := DecNumber(f, s).value;
      PackedSound(tight, f, vs + [d.0], d.1);
    }
  }

  // ---- Any bytes ----

  lemma {:induction false} ValueSound(tight: bool, f: Field, v: Value, s: seq<byte>)
    requires Ready(tight, f) && SoundValue(tight, f, v) && DecValue(f, v, s).Some?
    ensures SoundValue(tight, f, DecValue(f, v, s).value.0)
    decreases |s|, 1
  {
    hide DecNumber, DecBlob, TakeDelimited, Defaults;
    if Packable(f.ltype) {
      NumberSound(tight, f, s);
    } else if f.ltype.Submessage? {
      var b := TakeDelimited(s).value.0;
      var base := if f.htype.Repeated? || f.htype.Oneof? then Defaults(f.sub) else v.slots;
      DefaultsSound(tight, f.sub);
      FieldsSound(tight, f.sub, base, {}, b);
    } else {
      BlobSound(tight, f, s);
    }
  }

  lemma {:induction false} SlotSound(tight: bool, f: Field, wt: nat, slot: Slot, s: seq<byte>)
    requires Ready(tight, f) && SoundSlot(tight, f, slot) && DecSlot(f, wt, slot, s).Some?
    ensures SoundSlot(tight, f, DecSlot(f, wt, slot, s).value.0)
    ensures f.htype.Oneof? ==> DecSlot(f, wt, slot, s).value.0.One?
    decreases |s|, 2
  {
    hide DecValue, DecPacked, TakeDelimited, DefaultOf, TypedValue, FitsValue, DefaultFits;
    DefaultSound(tight, f);
    if !f.htype.Repeated? {
      ValueSound(tight, f, ValueIn(f, slot), s);
    } else if wt == WT_STRING && Packable(f.ltype) {
      PackedSound(tight, f, slot.vs, TakeDelimited(s).value.0);
    } else {
      ValueSound(tight, f, DefaultOf(f), s);
    }
  }

  lemma {:induction false} FieldsSound(tight: bool, fs: seq<Field>, m: seq<Slot>, seen: set<nat>, s: seq<byte>)
    requires AllReady(tight, fs) && Sound(tight, fs, m) && DecFields(fs, m, seen, s).Some?
    ensures Sound(tight, fs, DecFields(fs, m, seen, s).value.m)
    decreases |s|, 3
  {
    hide DecSlot, Dec32, Skip, FindTag, TypedSlot, FitsSlot, ValidField, DefaultFits, Store;
    if |s| > 0 && Dec32(s).value.0 != 0 {
      var (key, u) := Dec32(s).value;
      var i := FindTag(fs, key / 8);
      if i == |fs| {
        FieldsSound(tight, fs, m, seen, Skip(key % 8, u).value);
      } else {
        SlotSound(tight, fs[i], key % 8, m[i], u);
        var d := DecSlot(fs[i], key % 8, m[i], u).value;
        StoreSound(tight, fs, m, i, d.0);
        FieldsSound(tight, fs, Store(fs, m, i, d.0), seen + {i}, d.1);
      }
    }
  }

  lemma StoreSound(tight: bool, fs: seq<Field>, m: seq<Slot>, i: nat, slot: Slot)
    requires Sound(tight, fs, m) && i < |fs| && SoundSlot(tight, fs[i], slot)
    ensures Sound(tight, fs, Store(fs, m, i, slot))
  {
    hide TypedValue, FitsValue;
    var st := Store(fs, m, i, slot);
    forall j | 0 <= j < |fs| ensures SoundSlot(tight, fs[j], st[j]) {
      assert st[j] == if j == i then slot else if SameGroup(fs[i], fs[j]) then Absent else m[j];
    }
    forall j, k | 0 <= j < k < |fs| && SameGroup(fs[j], fs[k]) && st[j].One? ensures st[k].Absent? {
      assert SameGroup(fs[i], fs[j]) <==> SameGroup(fs[i], fs[k]);
    }
  }

  // A structure that is decoded onto a well-typed one is well typed. If the old one and the
  // defaults fit their buffers, so does the new one.
  lemma DecodedSound(fs: seq<Field>, m: seq<Slot>, s: seq<byte>)
    requires ValidFields(fs) && TypedMessage(fs, m) && DecodeOnto(fs, m, s).Some?
    ensures TypedMessage(fs, DecodeOnto(fs, m, s).value.0)
    ensures DefaultsFit(fs) && Fits(fs, m) ==> Fits(fs, DecodeOnto(fs, m, s).value.0)
  {
    hide DecFields, TypedMessage, Fits, DefaultsFit, ValidFields, AllSeen;
    FieldsSound(false, fs, m, {}, s);
    if DefaultsFit(fs) && Fits(fs, m) {
      FieldsSound(true, fs, m, {}, s);
    }
  }
}
