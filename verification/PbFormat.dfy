// What the nanopb encoder writes and what the decoder makes of it, as functions.
module PbFormat {
  import opened Octets
  import opened Wrappers
  import opened PbWire
  import opened PbTypes

  const WT_VARINT: nat := 0
  const WT_64BIT: nat := 1
  const WT_STRING: nat := 2
  const WT_32BIT: nat := 5

  function WireType(t: LType): nat {
    match t
    case Varint | UVarint | SVarint => WT_VARINT
    case Fixed32 => WT_32BIT
    case Fixed64 => WT_64BIT
    case Bytes | String | Submessage | FixedBytes => WT_STRING
  }

  // ---- Encoder ----

  function EncTag(f: Field, wt: nat): seq<byte> {
    EncVarint(8 * f.tag + wt)
  }

  function Delimited(b: seq<byte>): seq<byte> {
    EncVarint(|b|) + b
  }

  // A number of a packable type; the descriptor's size plays no part on the wire.
  function EncNumber(f: Field, v: Value): seq<byte>
    requires Packable(f.ltype) && ValidField(f) && TypedValue(f, v)
  {
    match f.ltype
    case Varint => EncVarint(AsUint64(v.n))
    case UVarint => EncVarint(v.n)
    case SVarint => EncVarint(ZigZag(v.n))
    case Fixed32 => LittleEndian(v.n, 4)
    case Fixed64 => LittleEndian(v.n, 8)
  }

  function EncValue(f: Field, v: Value): Option<seq<byte>>
    requires ValidField(f) && TypedValue(f, v)
    decreases v, 1
  {
    match f.ltype
    case Bytes => if |v.bytes| + BYTES_HEADER > f.size then None else Some(Delimited(v.bytes))
    case String => Some(Delimited(v.bytes))
    case FixedBytes => Some(Delimited(v.bytes))
    case Submessage =>
      var e := EncFields(f.sub, v.slots, 0);
      if e.None? then None else Some(Delimited(e.value))
    case _ => Some(EncNumber(f, v))
  }

  function EncTagged(f: Field, v: Value): Option<seq<byte>>
    requires ValidField(f) && TypedValue(f, v)
    decreases v, 2
  {
    var e := EncValue(f, v);
    if e.None? then None else Some(EncTag(f, WireType(f.ltype)) + e.value)
  }

  function EncNumbers(f: Field, vs: seq<Value>): seq<byte>
    requires Packable(f.ltype) && ValidField(f) && forall i :: 0 <= i < |vs| ==> TypedValue(f, vs[i])
  {
    if |vs| == 0 then [] else EncNumber(f, vs[0]) + EncNumbers(f, vs[1..])
  }

  function EncEntries(f: Field, vs: seq<Value>): Option<seq<byte>>
    requires ValidField(f) && forall i :: 0 <= i < |vs| ==> TypedValue(f, vs[i])
    decreases vs, 3
  {
    if |vs| == 0 then Some([]) else
    var e := EncTagged(f, vs[0]);
    if e.None? then None else
    var r := EncEntries(f, vs[1..]);
    if r.None? then None else Some(e.value + r.value)
  }

  // Numbers are always packed.
  function EncArray(f: Field, vs: seq<Value>): Option<seq<byte>>
    requires ValidField(f) && forall i :: 0 <= i < |vs| ==> TypedValue(f, vs[i])
    decreases vs, 4
  {
    if |vs| == 0 then Some([])
    else if |vs| > f.arraySize then None
    else if Packable(f.ltype) then Some(EncTag(f, WT_STRING) + Delimited(EncNumbers(f, vs)))
    else EncEntries(f, vs)
  }

  // The proto3 test for values that need not be sent.
  predicate IsZero(f: Field, v: Value)
    requires ValidField(f) && TypedValue(f, v)
    decreases v, 1
  {
    match f.ltype
    case Bytes => |v.bytes| == 0
    case String => |v.bytes| == 0
    case FixedBytes => f.size == 0
    case Submessage =>
      assert TypedMessage(f.sub, v.slots) && ValidFields(f.sub);
      forall i :: 0 <= i < |f.sub| ==> IsZeroSlot(f.sub[i], v.slots[i])
    case _ => v.n == 0
  }

  predicate IsZeroSlot(f: Field, s: Slot)
    requires ValidField(f) && TypedSlot(f, s)
    decreases s, 2
  {
    match f.htype
    case Required => false
    case Repeated => |s.vs| == 0
    case Oneof(_) => s.Absent?
    case Optional => s.Absent?
    case Implicit => IsZero(f, s.v)
  }

  function EncSlot(f: Field, s: Slot): Option<seq<byte>>
    requires ValidField(f) && TypedSlot(f, s)
    decreases s, 5
  {
    match f.htype
    case Required => EncTagged(f, s.v)
    case Implicit => if IsZero(f, s.v) then Some([]) else EncTagged(f, s.v)
    case Optional => if s.One? then EncTagged(f, s.v) else Some([])
    case Oneof(_) => if s.One? then EncTagged(f, s.v) else Some([])
    case Repeated => EncArray(f, s.vs)
  }

  // The fields from the i-th on.
  function EncFields(fs: seq<Field>, m: seq<Slot>, i: nat): Option<seq<byte>>
    requires ValidFields(fs) && TypedMessage(fs, m) && i <= |fs|
    decreases m, 6, |fs| - i
  {
    if i == |fs| then Some([]) else
    var e := EncSlot(fs[i], m[i]);
    if e.None? then None else
    var r := EncFields(fs, m, i + 1);
    if r.None? then None else Some(e.value + r.value)
  }

  function Encode(fs: seq<Field>, m: seq<Slot>): Option<seq<byte>>
    requires ValidFields(fs) && TypedMessage(fs, m)
  {
    EncFields(fs, m, 0)
  }

  // The i-th field with its slot.
  lemma Shape(fs: seq<Field>, m: seq<Slot>, i: nat)
    requires ValidFields(fs) && TypedMessage(fs, m) && i <= |fs|
    ensures |m| == |fs| && (i < |fs| ==> ValidField(fs[i]) && TypedSlot(fs[i], m[i]))
  {
    hide TypedValue;
  }

  // ---- Decoder ----

  // A value and the bytes after it.
  type Got<T> = Option<(T, seq<byte>)>

  function Take(s: seq<byte>, n: nat): (r: Got<seq<byte>>)
    ensures r.Some? ==> |r.value.1| <= |s|
  {
    if |s| < n then None else Some((s[..n], s[n..]))
  }

  // A length and that many bytes.
  function TakeDelimited(s: seq<byte>): (r: Got<seq<byte>>)
    ensures r.Some? ==> |r.value.0| < |s| && |r.value.1| < |s|
  {
    var n := Dec32(s);
    if n.None? then None else Take(n.value.1, n.value.0)
  }

  function Fitting(n: int, half: int, s: seq<byte>): Got<Value> {
    if -half <= n < half then Some((Num(n), s)) else None
  }

  function DecNumber(f: Field, s: seq<byte>): (r: Got<Value>)
    requires Packable(f.ltype)
    ensures r.Some? ==> |r.value.1| < |s|
  {
    if f.ltype.Fixed32? then
      var w := Take(s, 4);
      if w.None? then None else Some((Num(FromLittleEndian(w.value.0)), w.value.1))
    else if f.ltype.Fixed64? then
      var w := Take(s, 8);
      if w.None? then None else Some((Num(FromLittleEndian(w.value.0)), w.value.1))
    else
      var v := Dec64(s, 0, 0);
      if v.None? then None else FitNumber(f, v.value.0, v.value.1)
  }

  // The varint as a number of the field's type, if it has one. Signed fields of less than
  // 64 bits look at the low 32 bits only.
  function FitNumber(f: Field, u: nat, s: seq<byte>): Got<Value>
    requires f.ltype in {Varint, UVarint, SVarint}
  {
    match f.ltype
    case Varint => Fitting(if f.size == 8 then AsInt64(u % TWO64) else AsInt32(u), Half(f.size), s)
    case UVarint => if u < 2 * Half(f.size) then Some((Num(u), s)) else None
    case SVarint => Fitting(UnZigZag(u % TWO64), Half(f.size), s)
  }

  // A C string ends at its first zero byte.
  function CString(s: seq<byte>): seq<byte> {
    if |s| == 0 || s[0] == 0 then [] else [s[0]] + CString(s[1..])
  }

  // A value of the field, onto the value already stored there.
  function DecValue(f: Field, old_: Value, s: seq<byte>): (r: Got<Value>)
    ensures r.Some? ==> |r.value.1| < |s|
    decreases |s|, 1
  {
    if Packable(f.ltype) then DecNumber(f, s)
    else if f.ltype.Submessage? then
      var b := TakeDelimited(s);
      if b.None? || !old_.Msg? then None else
      var base := if f.htype.Repeated? || f.htype.Oneof? then Defaults(f.sub) else old_.slots;
      if |base| != |f.sub| then None else
      var d := DecodeOnto(f.sub, base, b.value.0);
      if d.None? then None else Some((Msg(d.value.0), b.value.1))
    else DecBlob(f, s)
  }

  function DecBlob(f: Field, s: seq<byte>): (r: Got<Value>)
    requires f.ltype in {Bytes, String, FixedBytes}
    ensures r.Some? ==> |r.value.1| < |s|
  {
    var n := Dec32(s);
    if n.None? then None else
    var (size, t) := n.value;
    match f.ltype
    case Bytes =>
      if size > SIZE_MAX || size + BYTES_HEADER > f.size then None else
      var b := Take(t, size);
      if b.None? then None else Some((Blob(b.value.0), b.value.1))
    case String =>
      if size + 1 > f.size then None else
      var b := Take(t, size);
      if b.None? then None else Some((Blob(CString(b.value.0)), b.value.1))
    case FixedBytes =>
      if size > SIZE_MAX then None
      else if size == 0 then Some((Blob(Zeros(f.size)), t))
      else if size != f.size then None else
      var b := Take(t, size);
      if b.None? then None else Some((Blob(b.value.0), b.value.1))
  }

  // A packed array: numbers until the bytes or the entries run out.
  function DecPacked(f: Field, vs: seq<Value>, s: seq<byte>): Option<seq<Value>>
    requires Packable(f.ltype)
    decreases |s|
  {
    if |s| == 0 then Some(vs)
    else if |vs| >= f.arraySize then None else
    var d := DecNumber(f, s);
    if d.None? then None else DecPacked(f, vs + [d.value.0], d.value.1)
  }

  function ValueIn(f: Field, slot: Slot): Value {
    if slot.One? then slot.v else DefaultOf(f)
  }

  function DecSlot(f: Field, wt: nat, slot: Slot, s: seq<byte>): (r: Got<Slot>)
    ensures r.Some? ==> |r.value.1| < |s|
    decreases |s|, 2
  {
    if f.htype.Repeated? then
      if !slot.Many? then None
      else if wt == WT_STRING && Packable(f.ltype) then
        var b := TakeDelimited(s);
        if b.None? then None else
        var vs := DecPacked(f, slot.vs, b.value.0);
        if vs.None? then None else Some((Many(vs.value), b.value.1))
      else if |slot.vs| >= f.arraySize then None else
      var d := DecValue(f, DefaultOf(f), s);
      if d.None? then None else Some((Many(slot.vs + [d.value.0]), d.value.1))
    else
      var d := DecValue(f, ValueIn(f, slot), s);
      if d.None? then None else Some((One(d.value.0), d.value.1))
  }

  // Storing into one alternative of a oneof discards the others.
  function Store(fs: seq<Field>, m: seq<Slot>, i: nat, slot: Slot): (r: seq<Slot>)
    requires |m| == |fs| && i < |fs|
    ensures |r| == |fs|
  {
    seq(|fs|, j requires 0 <= j < |fs| => if j == i then slot else if SameGroup(fs[i], fs[j]) then Absent else m[j])
  }

  function FindTag(fs: seq<Field>, tag: nat): (i: nat)
    ensures i <= |fs| && (i < |fs| ==> fs[i].tag == tag)
    ensures forall j :: 0 <= j < i ==> fs[j].tag != tag
  {
    if |fs| == 0 then 0 else if fs[0].tag == tag then 0 else 1 + FindTag(fs[1..], tag)
  }

  lemma TagFound(fs: seq<Field>, i: nat)
    requires i < |fs| && forall j, k :: 0 <= j < k < |fs| ==> fs[j].tag != fs[k].tag
    ensures FindTag(fs, fs[i].tag) == i
  {
    var j := FindTag(fs, fs[i].tag);
  }

  function SkipVarint(s: seq<byte>): (r: Option<seq<byte>>)
    ensures r.Some? ==> |r.value| < |s|
  {
    if |s| == 0 then None else if s[0] >= 128 then SkipVarint(s[1..]) else Some(s[1..])
  }

  function Skip(wt: nat, s: seq<byte>): (r: Option<seq<byte>>)
    ensures r.Some? ==> |r.value| <= |s|
  {
    if wt == WT_VARINT then SkipVarint(s)
    else if wt == WT_64BIT then (if |s| < 8 then None else Some(s[8..]))
    else if wt == WT_STRING then (var b := TakeDelimited(s); if b.None? then None else Some(b.value.1))
    else if wt == WT_32BIT then (if |s| < 4 then None else Some(s[4..]))
    else None
  }

  // The state of the decoding loop: the structure, the fields seen, the bytes left, and
  // whether a zero tag has ended the message early.
  datatype Loop = Loop(m: seq<Slot>, seen: set<nat>, rest: seq<byte>, stopped: bool)

  function DecFields(fs: seq<Field>, m: seq<Slot>, seen: set<nat>, s: seq<byte>): (r: Option<Loop>)
    requires |m| == |fs|
    ensures r.Some? ==> |r.value.m| == |fs| && |r.value.rest| <= |s| && (!r.value.stopped ==> r.value.rest == [])
    decreases |s|, 3
  {
    if |s| == 0 then Some(Loop(m, seen, [], false)) else
    var t := Dec32(s);
    if t.None? then None else
    var (key, u) := t.value;
    if key == 0 then Some(Loop(m, seen, u, true)) else
    var i := FindTag(fs, key / 8);
    if i == |fs| then
      // An empty descriptor list offers its terminator as a match for tag 0.
      if |fs| == 0 && key / 8 == 0 then None else
      var r := Skip(key % 8, u);
      if r.None? then None else DecFields(fs, m, seen, r.value)
    else
      var d := DecSlot(fs[i], key % 8, m[i], u);
      if d.None? then None else DecFields(fs, Store(fs, m, i, d.value.0), seen + {i}, d.value.1)
  }

  // How many required fields come before the i-th.
  function RequiredBefore(fs: seq<Field>, i: nat): nat
    requires i <= |fs|
  {
    if i == 0 then 0 else RequiredBefore(fs, i - 1) + if fs[i - 1].htype.Required? then 1 else 0
  }

  ghost predicate RequiredSeen(fs: seq<Field>, seen: set<nat>) {
    forall i :: 0 <= i < |fs| && fs[i].htype.Required? && RequiredBefore(fs, i) < MAX_REQUIRED ==> i in seen
  }

  predicate AllSeen(fs: seq<Field>, seen: set<nat>, i: nat)
    requires i <= |fs|
  {
    i == 0 || (AllSeen(fs, seen, i - 1)
               && (fs[i - 1].htype.Required? && RequiredBefore(fs, i - 1) < MAX_REQUIRED ==> i - 1 in seen))
  }

  lemma {:induction false} AllSeenIs(fs: seq<Field>, seen: set<nat>, n: nat)
    requires n <= |fs|
    ensures AllSeen(fs, seen, n) <==>
            forall i :: 0 <= i < n && fs[i].htype.Required? && RequiredBefore(fs, i) < MAX_REQUIRED ==> i in seen
  {
    if n > 0 {
      AllSeenIs(fs, seen, n - 1);
    }
  }

  // Decoding without initialising the structure first; all the bytes are offered.
  function DecodeOnto(fs: seq<Field>, m: seq<Slot>, s: seq<byte>): (r: Got<seq<Slot>>)
    requires |m| == |fs|
    ensures r.Some? ==> |r.value.0| == |fs|
    decreases |s|, 4
  {
    var d := DecFields(fs, m, {}, s);
    if d.None? || !AllSeen(fs, d.value.seen, |fs|) then None else Some((d.value.m, d.value.rest))
  }

  function Decode(fs: seq<Field>, s: seq<byte>): Got<seq<Slot>> {
    DecodeOnto(fs, Defaults(fs), s)
  }
}
