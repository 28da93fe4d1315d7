// Decoding what was encoded.
module PbRoundTrip {
  import opened Octets
  import opened Wrappers
  import opened PbWire
  import opened PbTypes
  import opened PbFormat

  // ---- Numbers and byte strings ----

  lemma NumberRoundTrip(f: Field, v: Value, rest: seq<byte>)
    requires Packable(f.ltype) && ValidField(f) && TypedValue(f, v)
    ensures DecNumber(f, EncNumber(f, v) + rest) == Some((v, rest)) && |EncNumber(f, v)| > 0
  {
    hide Dec64, EncVarint, LittleEndian, FromLittleEndian, Take, AsUint64, AsInt64, AsInt32, ZigZag, UnZigZag;
    HalfRange(f.size);
    match f.ltype
    case Fixed32 =>
      FixedRoundTrip(v.n, 4, rest);
    case Fixed64 =>
      FixedRoundTrip(v.n, 8, rest);
    case Varint =>
      SignedFits(v.n, f.size);
      VarintRoundTrip(AsUint64(v.n), rest);
    case UVarint =>
      VarintRoundTrip(v.n, rest);
    case SVarint =>
      ZigZagBijective(v.n, 0);
      VarintRoundTrip(ZigZag(v.n), rest);
      assert ZigZag(v.n) % TWO64 == ZigZag(v.n);
  }

  lemma HalfRange(size: nat)
    ensures 0 <= Half(size) <= TWO63
  {
  }

  lemma FixedRoundTrip(n: nat, width: nat, rest: seq<byte>)
    requires (width == 4 && n < TWO32) || (width == 8 && n < TWO64)
    ensures var s := LittleEndian(n, width);
            Take(s + rest, width) == Some((s, rest)) && FromLittleEndian(s) == n
  {
    WordSizes();
    WordRoundTrip(n, width);
    var s := LittleEndian(n, width);
    assert (s + rest)[..width] == s && (s + rest)[width..] == rest;
  }

  lemma SignedFits(n: int, size: nat)
    requires -Half(size) <= n < Half(size)
    ensures MIN64 <= n < TWO63 && AsUint64(n) < TWO64
    ensures (if size == 8 then AsInt64(AsUint64(n) % TWO64) else AsInt32(AsUint64(n))) == n
  {
    HalfRange(size);
    hide AsInt64, AsInt32, Half;
    InRange(n);
    if size != 8 {
      NotWide(size);
      LowWordKeepsSign(n);
    }
  }

  lemma InRange(n: int)
    requires MIN64 <= n < TWO63
    ensures AsUint64(n) < TWO64 && AsUint64(n) % TWO64 == AsUint64(n) && AsInt64(AsUint64(n)) == n
  {
  }

  lemma NotWide(size: nat)
    requires size != 8
    ensures Half(size) <= TWO31
  {
  }

  lemma LowWordKeepsSign(n: int)
    requires -0x8000_0000 <= n < TWO31
    ensures AsInt32(AsUint64(n)) == n
  {
    if n < 0 {
      assert TWO64 + n == (TWO32 - 1) * TWO32 + (TWO32 + n);
      assert (TWO64 + n) % TWO32 == TWO32 + n;
    }
  }

  lemma DelimitedRoundTrip(b: seq<byte>, rest: seq<byte>)
    requires |b| < TWO32
    ensures Dec32(Delimited(b) + rest) == Some((|b|, b + rest))
    ensures TakeDelimited(Delimited(b) + rest) == Some((b, rest))
  {
    assert Delimited(b) + rest == EncVarint(|b|) + (b + rest);
    Dec32Exactly(|b|, b + rest);
    assert (b + rest)[..|b|] == b && (b + rest)[|b|..] == rest;
  }

  lemma {:induction false} CStringOf(b: seq<byte>)
    requires 0 !in b
    ensures CString(b) == b
  {
    if |b| > 0 {
      CStringOf(b[1..]);
      assert b == [b[0]] + b[1..];
    }
  }

  // ---- Strings that fill their buffer ----

  // The decoder needs room for a terminator that the encoder does not ask for.
  predicate Terminated(f: Field, v: Value)
    requires ValidField(f) && TypedValue(f, v)
    decreases v, 1
  {
    if f.ltype.String? then |v.bytes| < f.size
    else if f.ltype.Submessage? then
      assert TypedMessage(f.sub, v.slots) && ValidFields(f.sub);
      TerminatedFrom(f.sub, v.slots, 0)
    else true
  }

  predicate TerminatedAll(f: Field, vs: seq<Value>)
    requires ValidField(f) && forall i :: 0 <= i < |vs| ==> TypedValue(f, vs[i])
    decreases vs, 2
  {
    |vs| == 0 || (Terminated(f, vs[0]) && TerminatedAll(f, vs[1..]))
  }

  predicate TerminatedSlot(f: Field, s: Slot)
    requires ValidField(f) && TypedSlot(f, s)
    decreases s, 3
  {
    match s
    case Absent => true
    case One(v) => Terminated(f, v)
    case Many(vs) => TerminatedAll(f, vs)
  }

  predicate TerminatedFrom(fs: seq<Field>, m: seq<Slot>, i: nat)
    requires ValidFields(fs) && TypedMessage(fs, m) && i <= |fs|
    decreases m, 4, |fs| - i
  {
    i == |fs| || (TerminatedSlot(fs[i], m[i]) && TerminatedFrom(fs, m, i + 1))
  }

  // ---- One record ----

  lemma KeyRoundTrip(f: Field, wt: nat, rest: seq<byte>)
    requires ValidField(f) && wt < 8
    ensures var key := 8 * f.tag + wt;
            Dec32(EncTag(f, wt) + rest) == Some((key, rest)) && key > 0 && key / 8 == f.tag && key % 8 == wt
            && |EncTag(f, wt) + rest| > 0
  {
    hide Dec32, EncVarint, SignLike;
    assert 0 < f.tag <= SIZE_MAX;
    hide ValidField;
    KeyParts(f.tag, wt);
    Dec32Exactly(8 * f.tag + wt, rest);
  }

  lemma KeyParts(tag: nat, wt: nat)
    requires 0 < tag <= SIZE_MAX && wt < 8
    ensures var key := 8 * tag + wt;
            0 < key < TWO32 && key / 8 == tag && key % 8 == wt && key % TWO32 == key
  {
  }

  // A record for the i-th field goes to the i-th slot.
  lemma Record(fs: seq<Field>, m: seq<Slot>, seen: set<nat>, i: nat, wt: nat, body: seq<byte>)
    requires ValidFields(fs) && |m| == |fs| && i < |fs| && wt < 8
    ensures DecFields(fs, m, seen, EncTag(fs[i], wt) + body) ==
            var d := DecSlot(fs[i], wt, m[i], body);
            if d.None? then None else DecFields(fs, Store(fs, m, i, d.value.0), seen + {i}, d.value.1)
  {
    hide DecSlot, Dec32, EncTag, FindTag, Store;
    KeyRoundTrip(fs[i], wt, body);
    TagFound(fs, i);
  }

  // ---- The field is at its default ----

  lemma {:induction false} ZeroIs(f: Field, v: Value)
    requires ValidField(f) && TypedValue(f, v) && IsZero(f, v)
    ensures v == ZeroOf(f)
    decreases v, 1
  {
    if f.ltype.Submessage? {
      assert TypedMessage(f.sub, v.slots) && ValidFields(f.sub);
      forall i | 0 <= i < |f.sub| ensures v.slots[i] == DefaultSlot(f.sub[i]) {
        ZeroSlotIs(f.sub[i], v.slots[i]);
      }
      assert v.slots == Defaults(f.sub);
    }
  }

  lemma {:induction false} ZeroSlotIs(f: Field, s: Slot)
    requires ValidField(f) && TypedSlot(f, s) && IsZeroSlot(f, s)
    ensures s == DefaultSlot(f)
    decreases s, 2
  {
    if f.htype.Implicit? {
      ZeroIs(f, s.v);
    }
  }

  // ---- Values ----

  lemma BlobRoundTrip(f: Field, v: Value, rest: seq<byte>)
    requires f.ltype in {Bytes, String, FixedBytes} && ValidField(f) && TypedValue(f, v)
    requires EncValue(f, v).Some?
    ensures DecBlob(f, EncValue(f, v).value + rest) == if Terminated(f, v) then Some((v, rest)) else None
  {
    hide Dec32, EncVarint, Delimited, TakeDelimited;
    var b := v.bytes;
    DelimitedRoundTrip(b, rest);
    assert (b + rest)[..|b|] == b && (b + rest)[|b|..] == rest;
    match f.ltype
    case Bytes =>
    case String => CStringOf(b);
    case FixedBytes =>
      if |b| == 0 {
        assert Zeros(f.size) == b && b + rest == rest;
      }
  }

  // A byte field takes two bytes less than its structure in either direction.
  lemma BytesFitExactly(f: Field, b: seq<byte>, rest: seq<byte>)
    requires f.ltype.Bytes? && ValidField(f) && |b| <= 0xFFFF
    ensures EncValue(f, Blob(b)) == if |b| + 2 <= f.size then Some(Delimited(b)) else None
    ensures DecBlob(f, Delimited(b) + rest) == if |b| + 2 <= f.size then Some((Blob(b), rest)) else None
  {
    hide Dec32, EncVarint, Delimited, TakeDelimited;
    DelimitedRoundTrip(b, rest);
    assert (b + rest)[..|b|] == b && (b + rest)[|b|..] == rest;
  }

  // The induction runs over the structure: the encoding of a value decodes to that value if
  // every string in it is terminated, and not at all otherwise.
  lemma {:induction false} ValueDecodes(f: Field, v: Value, rest: seq<byte>)
    requires ValidField(f) && TypedValue(f, v) && EncValue(f, v).Some? && |EncValue(f, v).value| < TWO32
    ensures DecValue(f, DefaultOf(f), EncValue(f, v).value + rest) == if Terminated(f, v) then Some((v, rest)) else None
    decreases v, 1
  {
    if Packable(f.ltype) {
      NumberRoundTrip(f, v, rest);
    } else if f.ltype.Submessage? {
      assert TypedMessage(f.sub, v.slots) && ValidFields(f.sub);
      var e := EncFields(f.sub, v.slots, 0).value;
      FieldsDecode(f.sub, v.slots, 0, Defaults(f.sub), {});
      AllRequiredSeen(f.sub, v.slots);
      SubmessageDecodes(f, v, e, rest);
    } else {
      BlobRoundTrip(f, v, rest);
    }
  }

  lemma SubmessageDecodes(f: Field, v: Value, e: seq<byte>, rest: seq<byte>)
    requires f.ltype.Submessage? && ValidField(f) && TypedValue(f, v)
    requires ValidFields(f.sub) && TypedMessage(f.sub, v.slots) && EncFields(f.sub, v.slots, 0) == Some(e)
    requires |Delimited(e)| < TWO32
    requires DecFields(f.sub, Defaults(f.sub), {}, e) ==
             if TerminatedFrom(f.sub, v.slots, 0) then Some(Loop(v.slots, {} + SeenFrom(f.sub, v.slots, 0), [], false)) else None
    requires AllSeen(f.sub, {} + SeenFrom(f.sub, v.slots, 0), |f.sub|)
    ensures DecValue(f, DefaultOf(f), Delimited(e) + rest) == if Terminated(f, v) then Some((v, rest)) else None
  {
    hide Dec32, EncVarint, TakeDelimited, DecFields, EncFields, TerminatedFrom, SeenFrom, AllSeen;
    DelimitedSize(e);
    DelimitedRoundTrip(e, rest);
    TerminatedMessage(f, v);
  }

  lemma DelimitedSize(e: seq<byte>)
    ensures |e| < |Delimited(e)|
  {
  }

  lemma TerminatedMessage(f: Field, v: Value)
    requires f.ltype.Submessage? && ValidField(f) && TypedValue(f, v)
    requires ValidFields(f.sub) && TypedMessage(f.sub, v.slots)
    ensures Terminated(f, v) <==> TerminatedFrom(f.sub, v.slots, 0)
  {
  }

  // ---- Which fields are sent ----

  predicate Emits(f: Field, s: Slot)
    requires ValidField(f) && TypedSlot(f, s)
  {
    match f.htype
    case Required => true
    case Implicit => !IsZero(f, s.v)
    case Optional => s.One?
    case Oneof(_) => s.One?
    case Repeated => |s.vs| > 0
  }

  function SeenFrom(fs: seq<Field>, m: seq<Slot>, i: nat): set<nat>
    requires ValidFields(fs) && TypedMessage(fs, m) && i <= |fs|
    decreases |fs| - i
  {
    if i == |fs| then {} else (if Emits(fs[i], m[i]) then {i} else {}) + SeenFrom(fs, m, i + 1)
  }

  lemma {:induction false} RequiredAreSeen(fs: seq<Field>, m: seq<Slot>, i: nat)
    requires ValidFields(fs) && TypedMessage(fs, m) && i <= |fs|
    ensures forall j :: i <= j < |fs| && fs[j].htype.Required? ==> j in SeenFrom(fs, m, i)
    decreases |fs| - i
  {
    if i < |fs| {
      RequiredAreSeen(fs, m, i + 1);
    }
  }

  lemma AllRequiredSeen(fs: seq<Field>, m: seq<Slot>)
    requires ValidFields(fs) && TypedMessage(fs, m)
    ensures AllSeen(fs, {} + SeenFrom(fs, m, 0), |fs|)
  {
    hide TypedMessage, ValidFields;
    RequiredAreSeen(fs, m, 0);
    AllSeenIs(fs, {} + SeenFrom(fs, m, 0), |fs|);
  }

  // ---- Which fields are left out ----

  lemma ZeroSlotExactly(f: Field, s: Slot)
    requires ValidField(f) && TypedSlot(f, s)
    ensures IsZeroSlot(f, s) <==> EncSlot(f, s) == Some([])
  {
    hide EncValue, EncEntries, EncNumbers, Delimited, EncVarint, IsZero, TypedValue, ValidField;
    if f.htype.Repeated? && |s.vs| > 0 && EncSlot(f, s).Some? && !Packable(f.ltype) {
      assert EncArray(f, s.vs) == EncEntries(f, s.vs);
      FirstEntry(f, s.vs);
    }
  }

  lemma FirstEntry(f: Field, vs: seq<Value>)
    requires ValidField(f) && |vs| > 0 && (forall i :: 0 <= i < |vs| ==> TypedValue(f, vs[i])) && EncEntries(f, vs).Some?
    ensures EncTagged(f, vs[0]).Some? && |EncEntries(f, vs).value| >= |EncTagged(f, vs[0]).value| > 0
  {
    hide EncValue, EncVarint, TypedValue, ValidField;
  }

  lemma {:induction false} AllLeftOut(fs: seq<Field>, m: seq<Slot>, i: nat)
    requires ValidFields(fs) && TypedMessage(fs, m) && i <= |fs|
    ensures EncFields(fs, m, i) == Some([]) <==>
            forall j :: i <= j < |fs| ==> ValidField(fs[j]) && TypedSlot(fs[j], m[j]) && IsZeroSlot(fs[j], m[j])
    decreases |fs| - i
  {
    hide EncSlot, IsZeroSlot, TypedMessage, ValidFields;
    Shape(fs, m, i);
    if i < |fs| {
      ZeroSlotExactly(fs[i], m[i]);
      AllLeftOut(fs, m, i + 1);
      assert [] + [] == EncFields(fs, m, |fs|).value;
    }
  }

  // A field takes no bytes exactly when it need not be sent: a required one never, an optional one
  // or an alternative if it is not there, an array if it is empty, and an implicit one if it is at
  // its default; fixed-size bytes count as default only if they have no bytes at all.
  lemma OmittedExactly(f: Field, s: Slot)
    requires ValidField(f) && TypedSlot(f, s)
    ensures EncSlot(f, s) == Some([]) <==>
            match f.htype
            case Required => false
            case Optional => s.Absent?
            case Oneof(_) => s.Absent?
            case Repeated => |s.vs| == 0
            case Implicit =>
              if f.ltype.Submessage? then
                ValidFields(f.sub) && TypedMessage(f.sub, s.v.slots) && EncFields(f.sub, s.v.slots, 0) == Some([])
              else if f.ltype.FixedBytes? then f.size == 0
              else s.v == f.dflt
  {
    ZeroSlotExactly(f, s);
    hide EncSlot;
    if f.htype.Implicit? && f.ltype.Submessage? {
      assert TypedMessage(f.sub, s.v.slots) && ValidFields(f.sub);
      AllLeftOut(f.sub, s.v.slots, 0);
    }
  }

  // ---- Fields ----

  // The slots before the i-th are filled in, the others at their defaults.
  predicate FilledTo(fs: seq<Field>, m: seq<Slot>, i: nat, st: seq<Slot>)
    requires |m| == |fs| && i <= |fs|
  {
    |st| == |fs| && (forall j :: 0 <= j < i ==> st[j] == m[j]) && forall j :: i <= j < |fs| ==> st[j] == DefaultSlot(fs[j])
  }

  lemma StoreNext(fs: seq<Field>, m: seq<Slot>, i: nat, st: seq<Slot>, slot: Slot)
    requires TypedMessage(fs, m) && i < |fs| && |st| == |fs|
    requires forall j :: 0 <= j < |fs| && j != i ==> st[j] == if j < i then m[j] else DefaultSlot(fs[j])
    requires fs[i].htype.Oneof? ==> m[i].One?
    ensures Store(fs, st, i, slot) == st[i := slot]
  {
    hide TypedMessage, DefaultOf, SameGroup;
    forall j | 0 <= j < |fs| && j != i && SameGroup(fs[i], fs[j]) ensures st[j].Absent? {
      if j < i {
        OneOfGroup(fs, m, j, i);
      } else {
        AbsentByDefault(fs[i], fs[j]);
      }
    }
    assert Store(fs, st, i, slot) == st[i := slot];
  }

  // An alternative before the chosen one is not chosen.
  lemma OneOfGroup(fs: seq<Field>, m: seq<Slot>, j: nat, i: nat)
    requires TypedMessage(fs, m) && j < i < |fs| && SameGroup(fs[i], fs[j]) && (fs[i].htype.Oneof? ==> m[i].One?)
    ensures m[j].Absent?
  {
    hide TypedValue;
    assert SameGroup(fs[j], fs[i]) && TypedSlot(fs[j], m[j]);
  }

  lemma AbsentByDefault(f: Field, g: Field)
    requires SameGroup(f, g)
    ensures DefaultSlot(g) == Absent
  {
  }

  // One tagged value.
  lemma {:induction false} TaggedDecodes(fs: seq<Field>, m: seq<Slot>, i: nat, st: seq<Slot>, seen: set<nat>, v: Value, rest: seq<byte>)
    requires ValidFields(fs) && TypedMessage(fs, m) && i < |fs| && FilledTo(fs, m, i, st)
    requires !fs[i].htype.Repeated? && m[i] == One(v) && TypedValue(fs[i], v)
    requires EncTagged(fs[i], v).Some? && |EncTagged(fs[i], v).value| < TWO32
    ensures DecFields(fs, st, seen, EncTagged(fs[i], v).value + rest) ==
            if Terminated(fs[i], v) then DecFields(fs, st[i := m[i]], seen + {i}, rest) else None
    decreases v, 2
  {
    hide DecFields, DecValue, EncValue, EncTag, Terminated, Store, TypedMessage, ValidFields, DefaultOf;
    var f := fs[i];
    assert ValidField(f) by {
      FieldIsValid(fs, i);
    }
    var e, wt := EncValue(f, v).value, WireType(f.ltype);
    assert EncTag(f, wt) + e + rest == EncTag(f, wt) + (e + rest);
    Record(fs, st, seen, i, wt, e + rest);
    ValueDecodes(f, v, rest);
    assert ValueIn(f, st[i]) == DefaultOf(f);
    StoreNext(fs, m, i, st, One(v));
  }

  lemma FieldIsValid(fs: seq<Field>, i: nat)
    requires ValidFields(fs) && i < |fs|
    ensures ValidField(fs[i])
  {
  }

  // ---- Arrays ----

  lemma {:induction false} NumbersDecode(f: Field, done: seq<Value>, vs: seq<Value>)
    requires Packable(f.ltype) && ValidField(f) && (forall k :: 0 <= k < |vs| ==> TypedValue(f, vs[k]))
    requires |done| + |vs| <= f.arraySize
    ensures DecPacked(f, done, EncNumbers(f, vs)) == Some(done + vs)
    decreases |vs|
  {
    hide EncNumber, DecNumber;
    if |vs| == 0 {
      assert done + vs == done;
    } else {
      var rest := EncNumbers(f, vs[1..]);
      NumberRoundTrip(f, vs[0], rest);
      NumbersDecode(f, done + [vs[0]], vs[1..]);
      assert done + [vs[0]] + vs[1..] == done + vs;
    }
  }

  lemma {:induction false} NumbersTerminated(f: Field, vs: seq<Value>)
    requires ValidField(f) && Packable(f.ltype) && forall k :: 0 <= k < |vs| ==> TypedValue(f, vs[k])
    ensures TerminatedAll(f, vs)
    decreases |vs|
  {
    if |vs| > 0 {
      NumbersTerminated(f, vs[1..]);
    }
  }

  // A packed array.
  lemma PackedDecodes(fs: seq<Field>, m: seq<Slot>, i: nat, st: seq<Slot>, seen: set<nat>, vs: seq<Value>, rest: seq<byte>)
    requires ValidFields(fs) && TypedMessage(fs, m) && i < |fs| && FilledTo(fs, m, i, st)
    requires fs[i].htype.Repeated? && Packable(fs[i].ltype) && m[i] == Many(vs)
    requires (forall k :: 0 <= k < |vs| ==> TypedValue(fs[i], vs[k])) && 0 < |vs| <= fs[i].arraySize
    requires |EncNumbers(fs[i], vs)| < TWO32
    ensures DecFields(fs, st, seen, EncTag(fs[i], WT_STRING) + Delimited(EncNumbers(fs[i], vs)) + rest) ==
            DecFields(fs, st[i := m[i]], seen + {i}, rest)
  {
    hide DecFields, DecValue, EncTag, Store, TypedMessage, ValidFields, EncNumbers, DecPacked, Delimited, TakeDelimited;
    var f := fs[i];
    assert ValidField(f) by {
      FieldIsValid(fs, i);
    }
    var b := EncNumbers(f, vs);
    assert EncTag(f, WT_STRING) + Delimited(b) + rest == EncTag(f, WT_STRING) + (Delimited(b) + rest);
    Record(fs, st, seen, i, WT_STRING, Delimited(b) + rest);
    DelimitedRoundTrip(b, rest);
    NumbersDecode(f, [], vs);
    assert [] + vs == vs;
    StoreNext(fs, m, i, st, Many(vs));
  }

  // The entries of an unpacked array, each in its own record, after those already stored.
  lemma {:induction false} EntriesDecode(fs: seq<Field>, m: seq<Slot>, i: nat, st: seq<Slot>, seen: set<nat>,
                                         done: seq<Value>, vs: seq<Value>, rest: seq<byte>)
    requires ValidFields(fs) && TypedMessage(fs, m) && i < |fs| == |st| && FilledTo(fs, m, i, st[i := DefaultSlot(fs[i])])
    requires st[i] == Many(done) && fs[i].htype.Repeated? && !Packable(fs[i].ltype)
    requires (forall k :: 0 <= k < |vs| ==> TypedValue(fs[i], vs[k])) && |done| + |vs| <= fs[i].arraySize
    requires EncEntries(fs[i], vs).Some? && |EncEntries(fs[i], vs).value| < TWO32
    ensures DecFields(fs, st, seen, EncEntries(fs[i], vs).value + rest) ==
            if TerminatedAll(fs[i], vs)
            then DecFields(fs, st[i := Many(done + vs)], seen + (if |vs| > 0 then {i} else {}), rest) else None
    decreases vs, 3
  {
    hide DecFields, DecValue, EncValue, EncTag, Terminated, Store, TypedMessage, ValidFields, DefaultOf;
    var f := fs[i];
    if |vs| == 0 {
      assert done + vs == done && st[i := Many(done)] == st && [] + rest == rest && seen + {} == seen;
    } else {
      assert ValidField(f) by {
        FieldIsValid(fs, i);
      }
      var wt, e := WireType(f.ltype), EncValue(f, vs[0]).value;
      var more := EncEntries(f, vs[1..]).value;
      var done' := done + [vs[0]];
      assert EncTag(f, wt) + e + more + rest == EncTag(f, wt) + (e + (more + rest));
      Record(fs, st, seen, i, wt, e + (more + rest));
      ValueDecodes(f, vs[0], more + rest);
      StoreNext(fs, m, i, st, Many(done'));
      var st' := st[i := Many(done')];
      assert st'[i := DefaultSlot(f)] == st[i := DefaultSlot(f)];
      EntriesDecode(fs, m, i, st', seen + {i}, done', vs[1..], rest);
      assert done' + vs[1..] == done + vs && st'[i := Many(done + vs)] == st[i := Many(done + vs)];
      assert seen + {i} + (if |vs[1..]| > 0 then {i} else {}) == seen + {i};
    }
  }

  // ---- Slots ----

  lemma {:induction false} SlotDecodes(fs: seq<Field>, m: seq<Slot>, i: nat, st: seq<Slot>, seen: set<nat>, rest: seq<byte>)
    requires ValidFields(fs) && TypedMessage(fs, m) && i < |fs| && FilledTo(fs, m, i, st)
    requires EncSlot(fs[i], m[i]).Some? && |EncSlot(fs[i], m[i]).value| < TWO32
    ensures DecFields(fs, st, seen, EncSlot(fs[i], m[i]).value + rest) ==
            if TerminatedSlot(fs[i], m[i])
            then DecFields(fs, st[i := m[i]], seen + (if Emits(fs[i], m[i]) then {i} else {}), rest) else None
    decreases m[i], 5
  {
    hide DecFields, EncTagged, EncEntries, EncNumbers, Delimited, Terminated, TerminatedAll, TypedMessage, ValidFields, DefaultOf, IsZero;
    Shape(fs, m, i);
    var f, slot := fs[i], m[i];
    if !Emits(f, slot) {
      assert [] + rest == rest && seen + {} == seen;
      NothingToSend(f, slot);
      assert st[i := slot] == st;
    } else if f.htype.Repeated? {
      if Packable(f.ltype) {
        NumbersTerminated(f, slot.vs);
        DelimitedSize(EncNumbers(f, slot.vs));
        PackedDecodes(fs, m, i, st, seen, slot.vs, rest);
      } else {
        assert st[i := DefaultSlot(f)] == st && [] + slot.vs == slot.vs;
        EntriesDecode(fs, m, i, st, seen, [], slot.vs, rest);
      }
    } else {
      TaggedDecodes(fs, m, i, st, seen, slot.v, rest);
    }
  }

  // A slot that is not sent is at its default, and its strings are terminated.
  lemma NothingToSend(f: Field, slot: Slot)
    requires ValidField(f) && TypedSlot(f, slot) && !Emits(f, slot)
    ensures slot == DefaultSlot(f) && TerminatedSlot(f, slot) && EncSlot(f, slot) == Some([])
  {
    if f.htype.Implicit? {
      ZeroIs(f, slot.v);
      ZeroTerminated(f, slot.v);
    }
  }

  lemma {:induction false} ZeroTerminated(f: Field, v: Value)
    requires ValidField(f) && TypedValue(f, v) && IsZero(f, v)
    ensures Terminated(f, v)
    decreases v, 3
  {
    if f.ltype.Submessage? {
      assert TypedMessage(f.sub, v.slots) && ValidFields(f.sub);
      ZeroTerminatedFrom(f.sub, v.slots, 0);
    }
  }

  lemma {:induction false} ZeroSlotTerminated(f: Field, s: Slot)
    requires ValidField(f) && TypedSlot(f, s) && IsZeroSlot(f, s)
    ensures TerminatedSlot(f, s)
    decreases s, 4
  {
    if f.htype.Implicit? {
      ZeroTerminated(f, s.v);
    }
  }

  lemma {:induction false} ZeroTerminatedFrom(fs: seq<Field>, m: seq<Slot>, i: nat)
    requires ValidFields(fs) && TypedMessage(fs, m) && i <= |fs|
    requires forall j :: i <= j < |fs| ==> IsZeroSlot(fs[j], m[j])
    ensures TerminatedFrom(fs, m, i)
    decreases m, 2, |fs| - i
  {
    if i < |fs| {
      assert IsZeroSlot(fs[i], m[i]);
      assert m[i] in m;
      ZeroSlotTerminated(fs[i], m[i]);
      ZeroTerminatedFrom(fs, m, i + 1);
    }
  }

  // ---- Messages ----

  lemma {:induction false} FieldsDecode(fs: seq<Field>, m: seq<Slot>, i: nat, st: seq<Slot>, seen: set<nat>)
    requires ValidFields(fs) && TypedMessage(fs, m) && i <= |fs| && FilledTo(fs, m, i, st)
    requires EncFields(fs, m, i).Some? && |EncFields(fs, m, i).value| < TWO32
    ensures DecFields(fs, st, seen, EncFields(fs, m, i).value) ==
            if TerminatedFrom(fs, m, i) then Some(Loop(m, seen + SeenFrom(fs, m, i), [], false)) else None
    decreases m, 6, |fs| - i
  {
    hide EncSlot, TerminatedSlot, Emits, TypedMessage, ValidFields, DefaultSlot;
    Shape(fs, m, i);
    if i == |fs| {
      assert st == m && seen + {} == seen;
    } else {
      var rest := EncFields(fs, m, i + 1).value;
      SlotDecodes(fs, m, i, st, seen, rest);
      var now := if Emits(fs[i], m[i]) then {i} else {};
      FieldsDecode(fs, m, i + 1, st[i := m[i]], seen + now);
      assert seen + now + SeenFrom(fs, m, i + 1) == seen + (now + SeenFrom(fs, m, i + 1));
    }
  }

  // Decoding an encoded message gives back the message and leaves no bytes, exactly if every
  // string in it ends before its buffer does; otherwise the decoder rejects it.
  lemma MessageRoundTrip(fs: seq<Field>, m: seq<Slot>)
    requires ValidFields(fs) && TypedMessage(fs, m)
    requires Encode(fs, m).Some? && |Encode(fs, m).value| < TWO32
    ensures Decode(fs, Encode(fs, m).value) == if TerminatedFrom(fs, m, 0) then Some((m, [])) else None
  {
    hide DecFields, EncFields, TerminatedFrom, AllSeen, SeenFrom, TypedMessage, ValidFields;
    FieldsDecode(fs, m, 0, Defaults(fs), {});
    AllRequiredSeen(fs, m);
  }
}
