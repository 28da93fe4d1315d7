// The nanopb decoder: input streams, substreams and the field loop.
module PbDecoder {
  import opened Octets
  import opened Wrappers
  import opened PbWire
  import opened PbTypes
  import opened PbFormat
  import opened PbShape
  import PbIter

  class IStream {
    const data: seq<byte>
    var pos: nat
    var bytesLeft: nat

    ghost predicate Valid()
      reads this
    {
      pos + bytesLeft <= |data|
    }

    function End(): nat
      reads this
    {
      pos + bytesLeft
    }

    // The bytes still to be read.
    ghost function Rest(): (s: seq<byte>)
      requires Valid()
      reads this
      ensures |s| == bytesLeft
    {
      data[pos..pos + bytesLeft]
    }

    constructor (data: seq<byte>, pos: nat, bytesLeft: nat)
      requires pos + bytesLeft <= |data|
      ensures Valid() && this.data == data && this.pos == pos && this.bytesLeft == bytesLeft
    {
      this.data, this.pos, this.bytesLeft := data, pos, bytesLeft;
    }

    method ReadByte() returns (ok: bool, b: byte)
      requires Valid()
      modifies this
      ensures Valid() && End() == old(End()) && ok == (old(bytesLeft) > 0)
      ensures ok ==> b == old(Rest())[0] && Rest() == old(Rest())[1..]
      ensures !ok ==> Rest() == old(Rest())
    {
      if bytesLeft == 0 {
        return false, 0;
      }
      b := data[pos];
      pos := pos + 1;
      bytesLeft := bytesLeft - 1;
      ok := true;
    }

    method Read(n: nat) returns (r: Option<seq<byte>>)
      requires Valid()
      modifies this
      ensures Valid() && End() == old(End())
      ensures var t := Take(old(Rest()), n);
              if t.None? then r.None? && Rest() == old(Rest()) else r == Some(t.value.0) && Rest() == t.value.1
    {
      if bytesLeft < n {
        return None;
      }
      assert Rest()[..n] == data[pos..pos + n] && Rest()[n..] == data[pos + n..pos + bytesLeft];
      r := Some(data[pos..pos + n]);
      pos := pos + n;
      bytesLeft := bytesLeft - n;
    }

    method DecodeVarint32() returns (r: Option<nat>)
      requires Valid()
      modifies this
      ensures Valid() && End() == old(End()) && bytesLeft <= old(bytesLeft)
      ensures var d := Dec32(old(Rest()));
              if d.None? then r.None? else r == Some(d.value.0) && Rest() == d.value.1
    {
      hide Pow128, More32;
      var ok, b := ReadByte();
      if !ok {
        return None;
      }
      if b < 128 {
        return Some(b);
      }
      var result: nat, k := b % 128, 1;
      var p: nat := 128;
      ghost var goal := Dec32(old(Rest()));
      assert Pow128(1) == 128 by {
        NextPow(0);
        PowZero();
      }
      while b >= 128
        invariant Valid() && End() == old(End()) && k >= 1 && p == Pow128(k) && bytesLeft <= old(bytesLeft)
        invariant b >= 128 ==> goal == More32(Rest(), k, result)
        invariant b < 128 ==> goal == if k == 5 && b / 16 % 8 != 0 then None else Some((result, Rest()))
        decreases b >= 128, bytesLeft
      {
        Unfold32(Rest(), k, result);
        ok, b := ReadByte();
        if !ok {
          return None;
        }
        if k >= 5 {
          var signExtension := if k < 9 then 0xFF else 0x01;
          if b % 128 != 0 && (result < TWO31 || b != signExtension) {
            return None;
          }
        } else {
          result := (result + b % 128 * p) % TWO32;
        }
        NextPow(k);
        p := 128 * p;
        k := k + 1;
      }
      if k == 5 && b / 16 % 8 != 0 {
        return None;
      }
      return Some(result);
    }

    method DecodeVarint() returns (r: Option<nat>)
      requires Valid()
      modifies this
      ensures Valid() && End() == old(End()) && bytesLeft <= old(bytesLeft)
      ensures var d := Dec64(old(Rest()), 0, 0);
              if d.None? then r.None? else r == Some(d.value.0) && Rest() == d.value.1
    {
      hide Pow128;
      var result: nat, k := 0, 0;
      var p: nat, more := 1, true;
      ghost var goal := Dec64(old(Rest()), 0, 0);
      PowZero();
      while more
        invariant Valid() && End() == old(End()) && p == Pow128(k) && bytesLeft <= old(bytesLeft)
        invariant if more then goal == Dec64(Rest(), k, result) else goal == Some((result, Rest()))
        decreases more, bytesLeft
      {
        if k >= 10 {
          return None;
        }
        var ok, b := ReadByte();
        if !ok {
          return None;
        }
        result := (result + b % 128 * p) % TWO64;
        NextPow(k);
        p := 128 * p;
        k := k + 1;
        more := b >= 128;
      }
      return Some(result);
    }

    method SkipVarint() returns (ok: bool)
      requires Valid()
      modifies this
      ensures Valid() && End() == old(End()) && bytesLeft <= old(bytesLeft)
      ensures var d := PbFormat.SkipVarint(old(Rest()));
              ok == d.Some? && (ok ==> Rest() == d.value)
    {
      var more := true;
      ghost var goal := PbFormat.SkipVarint(Rest());
      while more
        invariant Valid() && End() == old(End()) && bytesLeft <= old(bytesLeft)
        invariant goal == if more then PbFormat.SkipVarint(Rest()) else Some(Rest())
        decreases more, bytesLeft
      {
        var got, b := ReadByte();
        if !got {
          return false;
        }
        more := b >= 128;
      }
      return true;
    }

    // A substream over the next delimited bytes. The parent does not move past them until
    // the substream is closed.
    method MakeSubstream() returns (sub: IStream?)
      requires Valid()
      modifies this
      ensures Valid() && bytesLeft <= old(bytesLeft) && End() <= old(End())
      ensures var d := TakeDelimited(old(Rest()));
              if d.None? then sub == null
              else
                && sub != null && fresh(sub) && sub.Valid() && sub.data == data && sub.Rest() == d.value.0
                && sub.End() + bytesLeft == old(End()) && sub.bytesLeft < old(bytesLeft) && bytesLeft < old(bytesLeft)
                && data[sub.End()..old(End())] == d.value.1
    {
      hide Dec32;
      var size := DecodeVarint32();
      if size.None? || bytesLeft < size.value {
        return null;
      }
      sub := new IStream(data, pos, size.value);
      ghost var t := Rest();
      bytesLeft := bytesLeft - size.value;
      assert t[..size.value] == sub.Rest();
      assert t[size.value..] == data[sub.End()..old(End())];
    }

    // What the substream has left is skipped.
    method CloseSubstream(sub: IStream)
      requires sub != this && Valid() && sub.Valid() && sub.data == data && sub.End() + bytesLeft <= |data|
      modifies this, sub
      ensures Valid() && bytesLeft == old(bytesLeft) && pos == old(sub.End())
    {
      if sub.bytesLeft > 0 {
        var skipped := sub.Read(sub.bytesLeft);
        assert sub.bytesLeft == 0;
      }
      pos := sub.pos;
    }

    method SkipField(wt: nat) returns (ok: bool)
      requires Valid()
      modifies this
      ensures Valid() && End() == old(End()) && bytesLeft <= old(bytesLeft)
      ensures var d := Skip(wt, old(Rest()));
              ok == d.Some? && (ok ==> Rest() == d.value)
    {
      hide Dec32, PbFormat.SkipVarint;
      if wt == WT_VARINT {
        ok := SkipVarint();
      } else if wt == WT_64BIT {
        var r := Read(8);
        ok := r.Some?;
      } else if wt == WT_STRING {
        var size := DecodeVarint32();
        if size.None? {
          return false;
        }
        var r := Read(size.value);
        ok := r.Some?;
      } else if wt == WT_32BIT {
        var r := Read(4);
        ok := r.Some?;
      } else {
        ok := false;
      }
    }
  }

  lemma Unfold32(s: seq<byte>, k: nat, result: nat)
    ensures More32(s, k, result) ==
            if |s| == 0 then None
            else if k >= 5 && s[0] % 128 != 0 && (result < TWO31 || s[0] != if k < 9 then 0xFF else 0x01) then None
            else
              var acc := if k >= 5 then result else (result + s[0] % 128 * Pow128(k)) % TWO32;
              if s[0] >= 128 then More32(s[1..], k + 1, acc)
              else if k == 4 && s[0] / 16 % 8 != 0 then None
              else Some((acc, s[1..]))
  {
    hide Pow128;
  }

  // ---- One field ----

  method DecodeNumber(s: IStream, f: Field) returns (r: Option<Value>)
    requires s.Valid() && Packable(f.ltype)
    modifies s
    ensures s.Valid() && s.End() == old(s.End()) && s.bytesLeft <= old(s.bytesLeft)
    ensures var d := DecNumber(f, old(s.Rest()));
            if d.None? then r.None? else r == Some(d.value.0) && s.Rest() == d.value.1
  {
    hide Take, Dec64, AsInt32, AsInt64, UnZigZag, Half;
    if f.ltype.Fixed32? {
      var b := s.Read(4);
      if b.None? {
        return None;
      }
      return Some(Num(FromLittleEndian(b.value)));
    }
    if f.ltype.Fixed64? {
      var b := s.Read(8);
      if b.None? {
        return None;
      }
      return Some(Num(FromLittleEndian(b.value)));
    }
    var v := s.DecodeVarint();
    if v.None? {
      return None;
    }
    match f.ltype {
      case Varint =>
        var n := if f.size == 8 then AsInt64(v.value % TWO64) else AsInt32(v.value);
        r := if -Half(f.size) <= n < Half(f.size) then Some(Num(n)) else None;
      case UVarint =>
        r := if v.value < 2 * Half(f.size) then Some(Num(v.value)) else None;
      case SVarint =>
        var n := UnZigZag(v.value % TWO64);
        r := if -Half(f.size) <= n < Half(f.size) then Some(Num(n)) else None;
    }
  }

  method DecodeBlob(s: IStream, f: Field) returns (r: Option<Value>)
    requires s.Valid() && f.ltype in {Bytes, String, FixedBytes}
    modifies s
    ensures s.Valid() && s.End() == old(s.End()) && s.bytesLeft <= old(s.bytesLeft)
    ensures var d := DecBlob(f, old(s.Rest()));
            if d.None? then r.None? else r == Some(d.value.0) && s.Rest() == d.value.1
  {
    hide Take, Dec32, CString, Zeros;
    var size := s.DecodeVarint32();
    if size.None? {
      return None;
    }
    var n := size.value;
    match f.ltype {
      case Bytes =>
        if n > SIZE_MAX || n + BYTES_HEADER > f.size {
          return None;
        }
      case String =>
        if n + 1 > f.size {
          return None;
        }
      case FixedBytes =>
        if n > SIZE_MAX {
          return None;
        }
        if n == 0 {
          return Some(Blob(Zeros(f.size)));
        }
        if n != f.size {
          return None;
        }
    }
    var b := s.Read(n);
    if b.None? {
      return None;
    }
    return Some(Blob(if f.ltype.String? then CString(b.value) else b.value));
  }

  method DecodeValue(s: IStream, f: Field, old_: Value) returns (r: Option<Value>)
    requires s.Valid() && ValidField(f) && TypedValue(f, old_)
    modifies s
    ensures s.Valid() && s.End() <= old(s.End()) && s.bytesLeft <= old(s.bytesLeft) && (r.Some? ==> s.End() == old(s.End()))
    ensures var d := DecValue(f, old_, old(s.Rest()));
            if d.None? then r.None? else r == Some(d.value.0) && s.Rest() == d.value.1
    decreases s.bytesLeft, 1
  {
    hide DecNumber, DecBlob, DecodeOnto, TakeDelimited, Defaults;
    if Packable(f.ltype) {
      r := DecodeNumber(s, f);
      return;
    }
    if !f.ltype.Submessage? {
      r := DecodeBlob(s, f);
      return;
    }
    ghost var before := s.Rest();
    ghost var end := s.End();
    var sub := s.MakeSubstream();
    if sub == null {
      return None;
    }
    // Array entries and oneof alternatives start from their defaults, others are merged onto.
    var base := if f.htype.Repeated? || f.htype.Oneof? then Defaults(f.sub) else old_.slots;
    DefaultsSound(false, f.sub);
    var d := DecodeNoInit(sub, f.sub, base);
    s.CloseSubstream(sub);
    if d.None? {
      return None;
    }
    assert s.Rest() == TakeDelimited(before).value.1;
    return Some(Msg(d.value));
  }

  method DecodePacked(s: IStream, f: Field, vs: seq<Value>) returns (r: Option<seq<Value>>)
    requires s.Valid() && Packable(f.ltype)
    modifies s
    ensures s.Valid() && s.End() == old(s.End())
    ensures r == DecPacked(f, vs, old(s.Rest()))
  {
    hide DecNumber;
    var us := vs;
    while s.bytesLeft > 0 && |us| < f.arraySize
      invariant s.Valid() && s.End() == old(s.End())
      invariant DecPacked(f, vs, old(s.Rest())) == DecPacked(f, us, s.Rest())
      decreases s.bytesLeft
    {
      ghost var before := s.Rest();
      var v := DecodeNumber(s, f);
      if v.None? {
        return None;
      }
      us := us + [v.value];
    }
    if s.bytesLeft != 0 {
      return None;
    }
    return Some(us);
  }

  // One field with static storage.
  method DecodeSlot(s: IStream, f: Field, wt: nat, slot: Slot) returns (r: Option<Slot>)
    requires s.Valid() && ValidField(f) && TypedSlot(f, slot)
    modifies s
    ensures s.Valid() && s.End() <= old(s.End()) && s.bytesLeft <= old(s.bytesLeft) && (r.Some? ==> s.End() == old(s.End()))
    ensures var d := DecSlot(f, wt, slot, old(s.Rest()));
            if d.None? then r.None? else r == Some(d.value.0) && s.Rest() == d.value.1
    decreases s.bytesLeft, 2
  {
    hide DecValue, DecPacked, TakeDelimited, DefaultOf;
    DefaultSound(false, f);
    if f.htype.Repeated? {
      if wt == WT_STRING && Packable(f.ltype) {
        ghost var before := s.Rest();
        ghost var end := s.End();
        var sub := s.MakeSubstream();
        if sub == null {
          return None;
        }
        var vs := DecodePacked(sub, f, slot.vs);
        if vs.None? {
          return None;
        }
        s.CloseSubstream(sub);
        assert s.Rest() == TakeDelimited(before).value.1;
        return Some(Many(vs.value));
      }
      if |slot.vs| >= f.arraySize {
        return None;
      }
      var v := DecodeValue(s, f, DefaultOf(f));
      r := if v.None? then None else Some(Many(slot.vs + [v.value]));
    } else {
      var v := DecodeValue(s, f, ValueIn(f, slot));
      r := if v.None? then None else Some(One(v.value));
    }
  }

  // ---- Required fields ----

  // Bit b says whether the b-th required field was seen; bits past the last one are clear.
  ghost predicate Tracks(fs: seq<Field>, bits: seq<bool>, seen: set<nat>) {
    && |bits| == MAX_REQUIRED
    && (forall i :: 0 <= i < |fs| && fs[i].htype.Required? && RequiredBefore(fs, i) < MAX_REQUIRED ==>
          (bits[RequiredBefore(fs, i)] <==> i in seen))
    && (forall b :: RequiredBefore(fs, |fs|) <= b < MAX_REQUIRED ==> !bits[b])
  }

  lemma {:induction false} RequiredMonotone(fs: seq<Field>, i: nat, j: nat)
    requires i <= j <= |fs|
    ensures RequiredBefore(fs, i) <= RequiredBefore(fs, j)
    ensures i < j && fs[i].htype.Required? ==> RequiredBefore(fs, i) < RequiredBefore(fs, j)
    decreases j
  {
    if i < j {
      RequiredMonotone(fs, i, j - 1);
    }
  }

  // Every bit number below the count belongs to a required field.
  lemma {:induction false} RequiredAt(fs: seq<Field>, n: nat, b: nat) returns (i: nat)
    requires n <= |fs| && b < RequiredBefore(fs, n)
    ensures i < n && fs[i].htype.Required? && RequiredBefore(fs, i) == b
    decreases n
  {
    if fs[n - 1].htype.Required? && RequiredBefore(fs, n - 1) == b {
      i := n - 1;
    } else {
      i := RequiredAt(fs, n - 1, b);
    }
  }

  lemma MarkSeen(fs: seq<Field>, bits: seq<bool>, seen: set<nat>, i: nat)
    requires Tracks(fs, bits, seen) && i < |fs|
    ensures var k := RequiredBefore(fs, i);
            Tracks(fs, if fs[i].htype.Required? && k < MAX_REQUIRED then bits[k := true] else bits, seen + {i})
  {
    hide RequiredBefore;
    RequiredMonotone(fs, i, |fs|);
    forall j | 0 <= j < |fs| && j != i && fs[i].htype.Required? && fs[j].htype.Required?
      ensures RequiredBefore(fs, i) != RequiredBefore(fs, j)
    {
      if i < j {
        RequiredMonotone(fs, i, j);
      } else {
        RequiredMonotone(fs, j, i);
      }
    }
  }

  // The bits are kept in words of 32: the whole words must be full, the last one full up to
  // the count and empty above it.
  method BitsComplete(bits: array<bool>, count: nat) returns (ok: bool)
    requires bits.Length == MAX_REQUIRED && count <= MAX_REQUIRED
    requires forall b :: count <= b < MAX_REQUIRED ==> !bits[b]
    ensures ok <==> forall b :: 0 <= b < count ==> bits[b]
  {
    var i := 0;
    while i < count / 32
      invariant 0 <= i <= count / 32
      invariant forall b :: 0 <= b < 32 * i ==> bits[b]
    {
      var full := WordIs(bits, i, 32);
      if !full {
        return false;
      }
      i := i + 1;
    }
    if count % 32 != 0 {
      ok := WordIs(bits, count / 32, count % 32);
    } else {
      ok := true;
    }
  }

  // Word w is exactly its n lowest bits.
  method WordIs(bits: array<bool>, w: nat, n: nat) returns (ok: bool)
    requires 32 * w + 32 <= bits.Length && n <= 32
    ensures ok <==> forall b :: 32 * w <= b < 32 * w + 32 ==> (bits[b] <==> b < 32 * w + n)
  {
    var b := 32 * w;
    while b < 32 * w + 32
      invariant 32 * w <= b <= 32 * w + 32
      invariant forall c :: 32 * w <= c < b ==> (bits[c] <==> c < 32 * w + n)
    {
      if bits[b] != (b < 32 * w + n) {
        return false;
      }
      b := b + 1;
    }
    return true;
  }

  // Runs the iterator to the end to learn the number of required fields.
  method CountRequired(iter: PbIter.FieldIter) returns (count: nat)
    requires iter.Valid()
    modifies iter
    ensures count == RequiredBefore(iter.fs, |iter.fs|)
  {
    if |iter.fs| == 0 {
      return 0;
    }
    count := iter.requiredIndex;
    var last := iter.fs[iter.pos].htype;
    var more := true;
    while more
      invariant iter.Valid()
      invariant more ==> iter.pos < |iter.fs|
      invariant !more ==> count == RequiredBefore(iter.fs, |iter.fs| - 1) && last == iter.fs[|iter.fs| - 1].htype
      decreases more, |iter.fs| - iter.pos
    {
      count := iter.requiredIndex;
      last := iter.fs[iter.pos].htype;
      more := iter.Next();
    }
    if last.Required? {
      count := count + 1;
    }
  }

  method CheckRequired(iter: PbIter.FieldIter, bits: array<bool>, ghost seen: set<nat>) returns (ok: bool)
    requires iter.Valid() && Tracks(iter.fs, bits[..], seen)
    modifies iter
    ensures ok == AllSeen(iter.fs, seen, |iter.fs|)
  {
    hide RequiredBefore, AllSeen;
    var count := CountRequired(iter);
    if count > MAX_REQUIRED {
      count := MAX_REQUIRED;
    }
    ghost var fs := iter.fs;
    AllSeenIs(fs, seen, |fs|);
    ok := BitsComplete(bits, count);
    if ok {
      forall i | 0 <= i < |fs| && fs[i].htype.Required? && RequiredBefore(fs, i) < MAX_REQUIRED ensures i in seen {
        RequiredMonotone(fs, i, |fs|);
        assert bits[..][RequiredBefore(fs, i)];
      }
    } else {
      var b :| 0 <= b < count && !bits[b];
      var i := RequiredAt(fs, |fs|, b);
      assert !bits[..][RequiredBefore(fs, i)];
    }
  }

  // ---- All fields ----

  // The field the iterator is at.
  method DecodeKnown(s: IStream, iter: PbIter.FieldIter, bits: array<bool>, m: seq<Slot>, wt: nat, ghost seen: set<nat>)
    returns (r: Option<seq<Slot>>)
    requires s.Valid() && iter.Valid() && |iter.fs| > 0 && ValidFields(iter.fs) && TypedMessage(iter.fs, m)
    requires Tracks(iter.fs, bits[..], seen)
    modifies s, bits
    ensures s.Valid() && s.End() <= old(s.End()) && s.bytesLeft <= old(s.bytesLeft) && (r.Some? ==> s.End() == old(s.End()))
    ensures var fs, i := iter.fs, iter.pos;
            var d := DecSlot(fs[i], wt, m[i], old(s.Rest()));
            if d.None? then r.None?
            else
              && r == Some(Store(fs, m, i, d.value.0)) && s.Rest() == d.value.1
              && TypedMessage(fs, r.value) && Tracks(fs, bits[..], seen + {i})
    decreases s.bytesLeft, 3
  {
    hide DecSlot, Store, TypedSlot, RequiredBefore, ValidField, Tracks;
    var fs, i := iter.fs, iter.pos;
    ghost var was := bits[..];
    assert |was| == MAX_REQUIRED by {
      TracksLength(fs, was, seen);
    }
    MarkSeen(fs, was, seen, i);
    if fs[i].htype.Required? && iter.requiredIndex < MAX_REQUIRED {
      bits[iter.requiredIndex] := true;
      assert bits[..] == was[iter.requiredIndex := true];
    }
    ghost var u := s.Rest();
    var d := DecodeSlot(s, fs[i], wt, m[i]);
    if d.None? {
      return None;
    }
    SlotSound(false, fs[i], wt, m[i], u);
    StoreSound(false, fs, m, i, d.value);
    return Some(Store(fs, m, i, d.value));
  }

  lemma TracksLength(fs: seq<Field>, bits: seq<bool>, seen: set<nat>)
    requires Tracks(fs, bits, seen)
    ensures |bits| == MAX_REQUIRED
  {
  }

  method DecodeNoInit(s: IStream, fs: seq<Field>, m: seq<Slot>) returns (r: Option<seq<Slot>>)
    requires s.Valid() && ValidFields(fs) && TypedMessage(fs, m)
    modifies s
    ensures s.Valid() && s.End() <= old(s.End()) && s.bytesLeft <= old(s.bytesLeft) && (r.Some? ==> s.End() == old(s.End()))
    ensures var d := DecodeOnto(fs, m, old(s.Rest()));
            if d.None? then r.None? else r == Some(d.value.0) && s.Rest() == d.value.1
    ensures r.Some? ==> TypedMessage(fs, r.value)
    ensures r.Some? && DefaultsFit(fs) && Fits(fs, m) ==> Fits(fs, r.value)
    decreases s.bytesLeft, 4
  {
    hide DecSlot, Dec32, FindTag, Skip, Store, AllSeen, TypedMessage, Fits, DefaultsFit, RequiredBefore, ValidField;
    Shape(fs, m, 0);
    var iter := new PbIter.FieldIter(fs);
    var bits := new bool[MAX_REQUIRED](i => false);
    var cur, stop := m, false;
    ghost var seen: set<nat> := {};
    ghost var goal := DecFields(fs, m, {}, s.Rest());
    while s.bytesLeft > 0 && !stop
      invariant s.Valid() && s.End() == old(s.End()) && s.bytesLeft <= old(s.bytesLeft)
      invariant iter.Valid() && iter.fs == fs && fresh(iter) && fresh(bits)
      invariant TypedMessage(fs, cur) && |cur| == |fs| && Tracks(fs, bits[..], seen)
      invariant goal == if stop then Some(Loop(cur, seen, s.Rest(), true)) else DecFields(fs, cur, seen, s.Rest())
      decreases s.bytesLeft
    {
      ghost var before := s.Rest();
      var key := s.DecodeVarint32();
      if key.None? {
        return None;
      }
      if key.value == 0 {
        stop := true;
      } else {
        var found := iter.Find(key.value / 8);
        if !found {
          NotFound(fs, key.value / 8);
          var ok := s.SkipField(key.value % 8);
          if !ok {
            return None;
          }
        } else if |fs| == 0 {
          // The iterator stops at the terminator, whose data size no decoder accepts.
          FindNothing(fs, key.value / 8);
          return None;
        } else {
          TagFound(fs, iter.pos);
          var d := DecodeKnown(s, iter, bits, cur, key.value % 8, seen);
          if d.None? {
            return None;
          }
          cur := d.value;
          seen := seen + {iter.pos};
        }
      }
    }
    var ok := CheckRequired(iter, bits, seen);
    if ok {
      DecodedSound(fs, m, old(s.Rest()));
    }
    r := if ok then Some(cur) else None;
  }

  lemma NotFound(fs: seq<Field>, tag: nat)
    requires |fs| > 0 ==> !exists i :: 0 <= i < |fs| && fs[i].tag == tag
    ensures FindTag(fs, tag) == |fs|
  {
  }

  lemma FindNothing(fs: seq<Field>, tag: nat)
    requires |fs| == 0
    ensures FindTag(fs, tag) == 0
  {
  }

  method Decode(s: IStream, fs: seq<Field>) returns (r: Option<seq<Slot>>)
    requires s.Valid() && ValidFields(fs)
    modifies s
    ensures s.Valid()
    ensures var d := PbFormat.Decode(fs, old(s.Rest()));
            if d.None? then r.None? else r == Some(d.value.0) && s.Rest() == d.value.1
    ensures r.Some? ==> TypedMessage(fs, r.value)
    ensures r.Some? && DefaultsFit(fs) ==> Fits(fs, r.value)
  {
    DefaultsTyped(fs);
    r := DecodeNoInit(s, fs, Defaults(fs));
  }
}
