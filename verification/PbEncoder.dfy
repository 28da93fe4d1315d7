// The nanopb encoder: output streams, sizing streams and the recursive field writers.
module PbEncoder {
  import opened Octets
  import opened Wrappers
  import opened PbWire
  import opened PbTypes
  import opened PbFormat
  import PbIter

  class OStream {
    const sizing: bool        // counts bytes without storing them
    const buf: array<byte>
    ghost const start: nat
    const maxSize: nat
    var pos: nat
    var bytesWritten: nat
    ghost var out: seq<byte>  // everything written so far

    ghost predicate Valid()
      reads this, buf
    {
      && bytesWritten == |out|
      && (!sizing ==>
            && |out| <= maxSize && start + maxSize <= buf.Length
            && pos == start + |out| && buf[start..pos] == out)
    }

    // There is room for n bytes in all.
    predicate Room(n: nat) {
      sizing || n <= maxSize
    }

    constructor (sizing: bool, buf: array<byte>, pos: nat, maxSize: nat)
      requires !sizing ==> pos + maxSize <= buf.Length
      ensures Valid() && out == []
      ensures this.sizing == sizing && this.buf == buf && start == pos && this.maxSize == maxSize
    {
      this.sizing, this.buf, this.start, this.maxSize := sizing, buf, pos, maxSize;
      this.pos, bytesWritten, out := pos, 0, [];
    }

    method Write(b: seq<byte>) returns (ok: bool)
      requires Valid()
      modifies this, buf
      ensures Valid() && ok == Room(old(|out|) + |b|)
      ensures out == if ok then old(out) + b else old(out)
      ensures forall k :: 0 <= k < buf.Length && !(start <= k < start + maxSize) ==> buf[k] == old(buf[k])
    {
      if !sizing {
        if bytesWritten + |b| > maxSize {
          return false;
        }
        var i := 0;
        while i < |b|
          invariant 0 <= i <= |b|
          invariant buf[start..pos] == out && buf[pos..pos + i] == b[..i]
          invariant forall k :: 0 <= k < buf.Length && !(start <= k < start + maxSize) ==> buf[k] == old(buf[k])
          modifies buf
        {
          buf[pos + i] := b[i];
          i := i + 1;
        }
        assert buf[start..pos + |b|] == buf[start..pos] + buf[pos..pos + |b|];
        pos := pos + |b|;
      }
      bytesWritten := bytesWritten + |b|;
      out := out + b;
      return true;
    }

    // A sizing stream only counts; b is what would be written.
    method Count(n: nat, ghost b: seq<byte>)
      requires Valid() && sizing && |b| == n
      modifies this
      ensures Valid() && out == old(out) + b
    {
      bytesWritten := bytesWritten + n;
      out := out + b;
    }

    // Takes over what a substream on the rest of this buffer has written.
    method Absorb(sub: OStream)
      requires Valid() && sub.Valid() && sub != this && !sizing && !sub.sizing && sub.buf == buf
      requires sub.start == pos && bytesWritten + sub.maxSize <= maxSize
      modifies this
      ensures Valid() && out == old(out) + sub.out
    {
      assert buf[start..sub.pos] == buf[start..pos] + buf[pos..sub.pos];
      bytesWritten := bytesWritten + sub.bytesWritten;
      pos := sub.pos;
      out := out + sub.out;
    }
  }

  // out is what a stream that held before holds after a part of e has been written; of an e that
  // does not exist, anything can be a part.
  ghost predicate Partial(before: seq<byte>, e: Option<seq<byte>>, out: seq<byte>) {
    before <= out && (e.Some? ==> out <= before + e.value)
  }

  // What a writer of e does to a stream that held before: it succeeds exactly if there is an
  // encoding and room for it, and then it has written exactly that. If it fails, what it has
  // written is a beginning of that, if there is an encoding at all.
  ghost predicate Outcome(s: OStream, before: seq<byte>, e: Option<seq<byte>>, ok: bool)
    reads s, s.buf
  {
    && s.Valid()
    && (ok <==> e.Some? && s.Room(|before| + |e.value|))
    && (ok ==> s.out == before + e.value)
    && Partial(before, e, s.out)
  }

  // Nothing outside the stream's part of the buffer has changed.
  twostate predicate Outside(s: OStream)
    reads s, s.buf
  {
    forall k :: 0 <= k < s.buf.Length && !(s.start <= k < s.start + s.maxSize) ==> s.buf[k] == old(s.buf[k])
  }

  // The first of two pieces, or the first and a part of the second.
  lemma TwoPieces(before: seq<byte>, a: seq<byte>, e: Option<seq<byte>>, out: seq<byte>)
    requires Partial(before, Some(a), out) || Partial(before + a, e, out)
    ensures Partial(before, if e.None? then None else Some(a + e.value), out)
  {
    if e.Some? {
      assert before + (a + e.value) == before + a + e.value;
    }
  }

  method EncodeVarint(s: OStream, v: nat) returns (ok: bool)
    requires s.Valid()
    modifies s, s.buf
    ensures Outcome(s, old(s.out), Some(EncVarint(v)), ok) && Outside(s)
  {
    var b := PbWire.EncodeVarint(v);
    ok := s.Write(b);
  }

  method EncodeTag(s: OStream, f: Field, wt: nat) returns (ok: bool)
    requires s.Valid() && ValidField(f) && wt < 8
    modifies s, s.buf
    ensures Outcome(s, old(s.out), Some(EncTag(f, wt)), ok) && Outside(s)
  {
    ok := EncodeVarint(s, 8 * f.tag + wt);
  }

  method EncodeString(s: OStream, b: seq<byte>) returns (ok: bool)
    requires s.Valid()
    modifies s, s.buf
    ensures Outcome(s, old(s.out), Some(Delimited(b)), ok) && Outside(s)
  {
    hide EncVarint;
    ghost var before := s.out;
    ok := EncodeVarint(s, |b|);
    if ok {
      ok := s.Write(b);
    }
    TwoPieces(before, EncVarint(|b|), Some(b), s.out);
  }

  method EncodeNumber(s: OStream, f: Field, v: Value) returns (ok: bool)
    requires s.Valid() && Packable(f.ltype) && ValidField(f) && TypedValue(f, v)
    modifies s, s.buf
    ensures Outcome(s, old(s.out), Some(EncNumber(f, v)), ok) && Outside(s)
  {
    match f.ltype {
      case Fixed32 => ok := s.Write(LittleEndian(v.n, 4));
      case Fixed64 => ok := s.Write(LittleEndian(v.n, 8));
      case Varint => ok := EncodeVarint(s, AsUint64(v.n));
      case UVarint => ok := EncodeVarint(s, v.n);
      case SVarint => ok := EncodeVarint(s, ZigZag(v.n));
    }
  }

  function DelimitedIf(e: Option<seq<byte>>): Option<seq<byte>> {
    if e.None? then None else Some(Delimited(e.value))
  }

  // The message is encoded twice: once to learn its size, once to write it. The second pass
  // writes exactly the size of the first, so the check that it does can never fail.
  method EncodeSubmessage(s: OStream, fs: seq<Field>, m: seq<Slot>) returns (ok: bool)
    requires s.Valid() && ValidFields(fs) && TypedMessage(fs, m)
    modifies s, s.buf
    ensures Outcome(s, old(s.out), DelimitedIf(Encode(fs, m)), ok) && Outside(s)
    decreases m, 7
  {
    hide EncFields, EncVarint, TypedMessage, ValidFields;
    var sizer := new OStream(true, s.buf, 0, 0);
    ok := EncodeMessage(sizer, fs, m);
    if !ok {
      return;
    }
    var size := sizer.bytesWritten;
    ghost var before := s.out;
    ok := EncodeVarint(s, size);
    if ok {
      if s.sizing {
        s.Count(size, sizer.out);
      } else {
        ok := WriteMessage(s, fs, m, size);
      }
    }
    TwoPieces(before, EncVarint(size), Encode(fs, m), s.out);
  }

  // The writing pass, on a substream with room for just the given size.
  method WriteMessage(s: OStream, fs: seq<Field>, m: seq<Slot>, size: nat) returns (ok: bool)
    requires s.Valid() && !s.sizing && ValidFields(fs) && TypedMessage(fs, m)
    requires Encode(fs, m).Some? && |Encode(fs, m).value| == size
    modifies s, s.buf
    ensures Outcome(s, old(s.out), Encode(fs, m), ok) && Outside(s)
    decreases m, 6, 1
  {
    hide EncFields, TypedMessage, ValidFields;
    if s.bytesWritten + size > s.maxSize {
      return false;
    }
    var sub := new OStream(false, s.buf, s.pos, size);
    var status := EncodeMessage(sub, fs, m);
    assert sub.bytesWritten == size;
    s.Absorb(sub);
    return status;
  }

  // The next field's writer has its outcome: what is still to come decides the whole.
  ghost function Final(out: seq<byte>, e: Option<seq<byte>>): Option<seq<byte>> {
    if e.None? then None else Some(out + e.value)
  }

  method EncodeMessage(s: OStream, fs: seq<Field>, m: seq<Slot>) returns (ok: bool)
    requires s.Valid() && ValidFields(fs) && TypedMessage(fs, m)
    modifies s, s.buf
    ensures Outcome(s, old(s.out), Encode(fs, m), ok) && Outside(s)
    decreases m, 6, 0
  {
    hide EncSlot, TypedMessage, ValidFields;
    var iter := new PbIter.FieldIter(fs);
    var more := iter.Begin();
    Shape(fs, m, 0);
    NoMoreFields(fs, m, s.out);
    while more
      invariant iter.Valid() && fresh(iter) && iter.fs == fs && s.Valid() && Outside(s)
      invariant old(s.out) <= s.out
      invariant more ==> iter.pos < |fs| && Final(old(s.out), Encode(fs, m)) == Final(s.out, EncFields(fs, m, iter.pos))
      invariant !more ==> Final(old(s.out), Encode(fs, m)) == Some(s.out)
      decreases more, |fs| - iter.pos
    {
      Shape(fs, m, iter.pos);
      FieldsStep(fs, m, iter.pos, s.out);
      ghost var mid, e, rest := s.out, EncSlot(fs[iter.pos], m[iter.pos]), EncFields(fs, m, iter.pos + 1);
      PartOfWhole(old(s.out), Encode(fs, m), mid, e, rest);
      ok := EncodeSlot(s, fs[iter.pos], m[iter.pos]);
      StillPartial(old(s.out), Encode(fs, m), mid, e, rest, s.out);
      if !ok {
        return;
      }
      NoMoreFields(fs, m, s.out);
      more := iter.Next();
    }
    return true;
  }

  // If the next part has no encoding or no room, neither has the whole.
  lemma PartOfWhole(before: seq<byte>, whole: Option<seq<byte>>, out: seq<byte>, e: Option<seq<byte>>, rest: Option<seq<byte>>)
    requires Final(before, whole) == if e.None? then None else Final(out + e.value, rest)
    ensures e.None? ==> whole.None?
    ensures e.Some? && whole.Some? ==> |before| + |whole.value| >= |out| + |e.value|
  {
    if e.Some? && whole.Some? {
      assert |before + whole.value| == |out + e.value + rest.value|;
    }
  }

  // A part of the next part is a part of the whole.
  lemma StillPartial(before: seq<byte>, whole: Option<seq<byte>>, mid: seq<byte>, e: Option<seq<byte>>,
                     rest: Option<seq<byte>>, out: seq<byte>)
    requires Final(before, whole) == if e.None? then None else Final(mid + e.value, rest)
    requires before <= mid && Partial(mid, e, out)
    ensures Partial(before, whole, out)
  {
    if e.Some? && whole.Some? {
      assert before + whole.value == mid + e.value + rest.value;
    }
  }

  lemma FieldsStep(fs: seq<Field>, m: seq<Slot>, i: nat, out: seq<byte>)
    requires ValidFields(fs) && TypedMessage(fs, m) && i < |fs| == |m| && ValidField(fs[i]) && TypedSlot(fs[i], m[i])
    ensures var e := EncSlot(fs[i], m[i]);
            Final(out, EncFields(fs, m, i)) ==
            if e.None? then None else Final(out + e.value, EncFields(fs, m, i + 1))
  {
    hide EncSlot, TypedMessage, ValidFields, ValidField, TypedSlot;
    var e, r := EncSlot(fs[i], m[i]), EncFields(fs, m, i + 1);
    if e.Some? && r.Some? {
      assert out + (e.value + r.value) == out + e.value + r.value;
    }
  }

  lemma NoMoreFields(fs: seq<Field>, m: seq<Slot>, out: seq<byte>)
    requires ValidFields(fs) && TypedMessage(fs, m)
    ensures Final(out, EncFields(fs, m, |fs|)) == Some(out)
  {
    assert out + [] == out;
  }

  method EncodeValue(s: OStream, f: Field, v: Value) returns (ok: bool)
    requires s.Valid() && ValidField(f) && TypedValue(f, v)
    modifies s, s.buf
    ensures Outcome(s, old(s.out), EncValue(f, v), ok) && Outside(s)
    decreases v, 1
  {
    match f.ltype {
      case Bytes =>
        if |v.bytes| + BYTES_HEADER > f.size {
          return false;
        }
        ok := EncodeString(s, v.bytes);
      case String =>
        ok := EncodeString(s, v.bytes);
      case FixedBytes =>
        ok := EncodeString(s, v.bytes);
      case Submessage =>
        assert TypedMessage(f.sub, v.slots) && ValidFields(f.sub);
        ok := EncodeSubmessage(s, f.sub, v.slots);
      case _ =>
        ok := EncodeNumber(s, f, v);
    }
  }

  method EncodeTagged(s: OStream, f: Field, v: Value) returns (ok: bool)
    requires s.Valid() && ValidField(f) && TypedValue(f, v)
    modifies s, s.buf
    ensures Outcome(s, old(s.out), EncTagged(f, v), ok) && Outside(s)
    decreases v, 2
  {
    hide EncValue, EncTag, ValidField, TypedValue;
    ghost var before := s.out;
    ok := EncodeTag(s, f, WireType(f.ltype));
    if ok {
      ok := EncodeValue(s, f, v);
    }
    TwoPieces(before, EncTag(f, WireType(f.ltype)), EncValue(f, v), s.out);
  }

  method EncodeSlot(s: OStream, f: Field, slot: Slot) returns (ok: bool)
    requires s.Valid() && ValidField(f) && TypedSlot(f, slot)
    modifies s, s.buf
    ensures Outcome(s, old(s.out), EncSlot(f, slot), ok) && Outside(s)
    decreases slot, 5
  {
    hide EncTagged, EncArray, IsZero;
    ok := true;
    match f.htype {
      case Required =>
        ok := EncodeTagged(s, f, slot.v);
      case Implicit =>
        if !IsZero(f, slot.v) {
          ok := EncodeTagged(s, f, slot.v);
        }
      case Optional =>
        if slot.One? {
          ok := EncodeTagged(s, f, slot.v);
        }
      case Oneof(_) =>
        if slot.One? {
          ok := EncodeTagged(s, f, slot.v);
        }
      case Repeated =>
        ok := EncodeArray(s, f, slot.vs);
    }
  }

  method EncodeArray(s: OStream, f: Field, vs: seq<Value>) returns (ok: bool)
    requires s.Valid() && ValidField(f) && forall i :: 0 <= i < |vs| ==> TypedValue(f, vs[i])
    modifies s, s.buf
    ensures Outcome(s, old(s.out), EncArray(f, vs), ok) && Outside(s)
    decreases vs, 4
  {
    hide EncEntries, EncNumbers, EncTag, EncVarint, ValidField, TypedValue;
    if |vs| == 0 {
      return true;
    }
    if |vs| > f.arraySize {
      return false;
    }
    if !Packable(f.ltype) {
      ok := EncodeEntries(s, f, vs);
      return;
    }
    ghost var before := s.out;
    ok := EncodeTag(s, f, WT_STRING);
    if ok {
      ok := EncodePacked(s, f, vs);
    }
    TwoPieces(before, EncTag(f, WT_STRING), Some(Delimited(EncNumbers(f, vs))), s.out);
  }

  // The size of a packed array and its numbers.
  method EncodePacked(s: OStream, f: Field, vs: seq<Value>) returns (ok: bool)
    requires s.Valid() && Packable(f.ltype) && ValidField(f) && forall i :: 0 <= i < |vs| ==> TypedValue(f, vs[i])
    modifies s, s.buf
    ensures Outcome(s, old(s.out), Some(Delimited(EncNumbers(f, vs))), ok) && Outside(s)
  {
    hide EncNumbers, EncVarint, ValidField, TypedValue;
    ghost var before := s.out;
    var size := PackedSize(s, f, vs);
    ok := EncodeVarint(s, size);
    if ok {
      if s.sizing {
        s.Count(size, EncNumbers(f, vs));
      } else {
        ok := EncodeNumbers(s, f, vs);
      }
    }
    TwoPieces(before, EncVarint(size), Some(EncNumbers(f, vs)), s.out);
  }

  // The total size of a packed array.
  method PackedSize(s: OStream, f: Field, vs: seq<Value>) returns (size: nat)
    requires Packable(f.ltype) && ValidField(f) && forall i :: 0 <= i < |vs| ==> TypedValue(f, vs[i])
    ensures size == |EncNumbers(f, vs)|
  {
    if f.ltype.Fixed32? {
      FixedSizes(f, vs);
      return 4 * |vs|;
    }
    if f.ltype.Fixed64? {
      FixedSizes(f, vs);
      return 8 * |vs|;
    }
    var none := new byte[0];
    var sizer := new OStream(true, none, 0, 0);
    var ok := EncodeNumbers(sizer, f, vs);
    return sizer.bytesWritten;
  }

  lemma {:induction false} FixedSizes(f: Field, vs: seq<Value>)
    requires Packable(f.ltype) && ValidField(f) && forall i :: 0 <= i < |vs| ==> TypedValue(f, vs[i])
    ensures f.ltype.Fixed32? ==> |EncNumbers(f, vs)| == 4 * |vs|
    ensures f.ltype.Fixed64? ==> |EncNumbers(f, vs)| == 8 * |vs|
    decreases |vs|
  {
    if |vs| > 0 {
      FixedSizes(f, vs[1..]);
    }
  }

  method EncodeNumbers(s: OStream, f: Field, vs: seq<Value>) returns (ok: bool)
    requires s.Valid() && Packable(f.ltype) && ValidField(f) && forall i :: 0 <= i < |vs| ==> TypedValue(f, vs[i])
    modifies s, s.buf
    ensures Outcome(s, old(s.out), Some(EncNumbers(f, vs)), ok) && Outside(s)
  {
    hide EncNumber, ValidField, TypedValue;
    var i := 0;
    assert vs[0..] == vs;
    while i < |vs|
      invariant 0 <= i <= |vs| && s.Valid() && Outside(s) && old(s.out) <= s.out
      invariant old(s.out) + EncNumbers(f, vs) == s.out + EncNumbers(f, vs[i..])
    {
      assert vs[i..][0] == vs[i] && vs[i..][1..] == vs[i + 1..];
      assert s.out + EncNumbers(f, vs[i..]) == s.out + EncNumber(f, vs[i]) + EncNumbers(f, vs[i + 1..]);
      ghost var mid := s.out;
      ok := EncodeNumber(s, f, vs[i]);
      StillPartial(old(s.out), Some(EncNumbers(f, vs)), mid, Some(EncNumber(f, vs[i])), Some(EncNumbers(f, vs[i + 1..])), s.out);
      if !ok {
        return;
      }
      i := i + 1;
    }
    return true;
  }

  method EncodeEntries(s: OStream, f: Field, vs: seq<Value>) returns (ok: bool)
    requires s.Valid() && ValidField(f) && forall i :: 0 <= i < |vs| ==> TypedValue(f, vs[i])
    modifies s, s.buf
    ensures Outcome(s, old(s.out), EncEntries(f, vs), ok) && Outside(s)
    decreases vs, 3
  {
    hide EncTagged, ValidField, TypedValue;
    var i := 0;
    assert vs[0..] == vs;
    while i < |vs|
      invariant 0 <= i <= |vs| && s.Valid() && Outside(s) && old(s.out) <= s.out
      invariant Final(old(s.out), EncEntries(f, vs)) == Final(s.out, EncEntries(f, vs[i..]))
    {
      EntriesStep(f, vs, i, s.out);
      ghost var mid, e, rest := s.out, EncTagged(f, vs[i]), EncEntries(f, vs[i + 1..]);
      PartOfWhole(old(s.out), EncEntries(f, vs), mid, e, rest);
      ok := EncodeTagged(s, f, vs[i]);
      StillPartial(old(s.out), EncEntries(f, vs), mid, e, rest, s.out);
      if !ok {
        return;
      }
      i := i + 1;
    }
    assert vs[|vs|..] == [] && s.out + [] == s.out;
    return true;
  }

  lemma EntriesStep(f: Field, vs: seq<Value>, i: nat, out: seq<byte>)
    requires ValidField(f) && (forall k :: 0 <= k < |vs| ==> TypedValue(f, vs[k])) && i < |vs|
    ensures var e := EncTagged(f, vs[i]);
            Final(out, EncEntries(f, vs[i..])) ==
            if e.None? then None else Final(out + e.value, EncEntries(f, vs[i + 1..]))
  {
    hide EncTagged, ValidField, TypedValue;
    assert vs[i..][0] == vs[i] && vs[i..][1..] == vs[i + 1..];
    var e, r := EncTagged(f, vs[i]), EncEntries(f, vs[i + 1..]);
    if e.Some? && r.Some? {
      assert out + (e.value + r.value) == out + e.value + r.value;
    }
  }

  // ---- Sizes and whole messages ----

  method GetEncodedSize(fs: seq<Field>, m: seq<Slot>) returns (ok: bool, size: nat)
    requires ValidFields(fs) && TypedMessage(fs, m)
    ensures ok == Encode(fs, m).Some? && (ok ==> size == |Encode(fs, m).value|)
  {
    var none := new byte[0];
    var sizer := new OStream(true, none, 0, 0);
    ok := EncodeMessage(sizer, fs, m);
    size := sizer.bytesWritten;
  }

  datatype Result = Ok | Inval | Overflow

  // Sizes the message, then encodes it into a buffer of just that size. Once the size fits,
  // nothing can go wrong.
  method Serialize(fs: seq<Field>, m: seq<Slot>, buf: array<byte>, bufSize: nat) returns (r: Result, size: nat)
    requires ValidFields(fs) && TypedMessage(fs, m) && bufSize <= buf.Length
    modifies buf
    ensures var e := Encode(fs, m);
            && r == (if e.None? then Inval else if |e.value| > bufSize then Overflow else Ok)
            && (r == Ok ==> size == |e.value| && buf[..size] == e.value)
            && size <= bufSize && forall k :: (if r == Ok then size else 0) <= k < buf.Length ==> buf[k] == old(buf[k])
  {
    var ok, encodedSize := GetEncodedSize(fs, m);
    if !ok {
      return Inval, bufSize;
    }
    if encodedSize > bufSize {
      return Overflow, bufSize;
    }
    var s := new OStream(false, buf, 0, encodedSize);
    ok := EncodeMessage(s, fs, m);
    assert ok;
    return Ok, encodedSize;
  }
}
