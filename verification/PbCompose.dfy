// Decoding in pieces, and what the decoder skips.
module PbCompose {
  import opened Octets
  import opened Wrappers
  import opened PbWire
  import opened PbTypes
  import opened PbFormat
  import PbRoundTrip

  // ---- More input after what is read changes nothing ----

  lemma {:induction false} Dec64Append(s: seq<byte>, b: seq<byte>, k: nat, result: nat)
    requires Dec64(s, k, result).Some?
    ensures Dec64(s + b, k, result) == Some((Dec64(s, k, result).value.0, Dec64(s, k, result).value.1 + b))
    decreases |s|
  {
    assert (s + b)[1..] == s[1..] + b;
    if s[0] >= 128 {
      Dec64Append(s[1..], b, k + 1, (result + s[0] % 128 * Pow128(k)) % TWO64);
    }
  }

  lemma {:induction false} More32Append(s: seq<byte>, b: seq<byte>, k: nat, result: nat)
    requires More32(s, k, result).Some?
    ensures More32(s + b, k, result) == Some((More32(s, k, result).value.0, More32(s, k, result).value.1 + b))
    decreases |s|
  {
    assert (s + b)[1..] == s[1..] + b;
    if s[0] >= 128 {
      More32Append(s[1..], b, k + 1, if k >= 5 then result else (result + s[0] % 128 * Pow128(k)) % TWO32);
    }
  }

  lemma Dec32Append(s: seq<byte>, b: seq<byte>)
    requires Dec32(s).Some?
    ensures Dec32(s + b) == Some((Dec32(s).value.0, Dec32(s).value.1 + b))
  {
    hide More32;
    assert (s + b)[1..] == s[1..] + b;
    if s[0] >= 128 {
      More32Append(s[1..], b, 1, s[0] % 128);
    }
  }

  lemma TakeAppend(s: seq<byte>, b: seq<byte>, n: nat)
    requires Take(s, n).Some?
    ensures Take(s + b, n) == Some((Take(s, n).value.0, Take(s, n).value.1 + b))
  {
    assert (s + b)[..n] == s[..n] && (s + b)[n..] == s[n..] + b;
  }

  lemma TakeDelimitedAppend(s: seq<byte>, b: seq<byte>)
    requires TakeDelimited(s).Some?
    ensures TakeDelimited(s + b) == Some((TakeDelimited(s).value.0, TakeDelimited(s).value.1 + b))
  {
    hide Dec32, Take;
    Dec32Append(s, b);
    var (n, t) := Dec32(s).value;
    TakeAppend(t, b, n);
  }

  lemma DecNumberAppend(f: Field, s: seq<byte>, b: seq<byte>)
    requires Packable(f.ltype) && DecNumber(f, s).Some?
    ensures DecNumber(f, s + b) == Some((DecNumber(f, s).value.0, DecNumber(f, s).value.1 + b))
  {
    hide Dec64, Take, AsInt32, AsInt64, UnZigZag, Half;
    if f.ltype.Fixed32? {
      TakeAppend(s, b, 4);
    } else if f.ltype.Fixed64? {
      TakeAppend(s, b, 8);
    } else {
      Dec64Append(s, b, 0, 0);
    }
  }

  lemma DecBlobAppend(f: Field, s: seq<byte>, b: seq<byte>)
    requires f.ltype in {Bytes, String, FixedBytes} && DecBlob(f, s).Some?
    ensures DecBlob(f, s + b) == Some((DecBlob(f, s).value.0, DecBlob(f, s).value.1 + b))
  {
    hide Dec32, Take, CString, Zeros;
    Dec32Append(s, b);
    var (n, t) := Dec32(s).value;
    if !(f.ltype.FixedBytes? && n == 0) {
      TakeAppend(t, b, n);
    }
  }

  lemma DecValueAppend(f: Field, v: Value, s: seq<byte>, b: seq<byte>)
    requires DecValue(f, v, s).Some?
    ensures DecValue(f, v, s + b) == Some((DecValue(f, v, s).value.0, DecValue(f, v, s).value.1 + b))
  {
    hide DecNumber, DecBlob, TakeDelimited, DecodeOnto, Defaults;
    if Packable(f.ltype) {
      DecNumberAppend(f, s, b);
    } else if f.ltype.Submessage? {
      TakeDelimitedAppend(s, b);
    } else {
      DecBlobAppend(f, s, b);
    }
  }

  lemma DecSlotAppend(f: Field, wt: nat, slot: Slot, s: seq<byte>, b: seq<byte>)
    requires DecSlot(f, wt, slot, s).Some?
    ensures DecSlot(f, wt, slot, s + b) == Some((DecSlot(f, wt, slot, s).value.0, DecSlot(f, wt, slot, s).value.1 + b))
  {
    hide DecValue, TakeDelimited, DecPacked, DefaultOf;
    if f.htype.Repeated? {
      if wt == WT_STRING && Packable(f.ltype) {
        TakeDelimitedAppend(s, b);
      } else {
        DecValueAppend(f, DefaultOf(f), s, b);
      }
    } else {
      DecValueAppend(f, ValueIn(f, slot), s, b);
    }
  }

  lemma {:induction false} SkipVarintAppend(s: seq<byte>, b: seq<byte>)
    requires SkipVarint(s).Some?
    ensures SkipVarint(s + b) == Some(SkipVarint(s).value + b)
    decreases |s|
  {
    assert (s + b)[1..] == s[1..] + b;
    if s[0] >= 128 {
      SkipVarintAppend(s[1..], b);
    }
  }

  lemma SkipAppend(wt: nat, s: seq<byte>, b: seq<byte>)
    requires Skip(wt, s).Some?
    ensures Skip(wt, s + b) == Some(Skip(wt, s).value + b)
  {
    hide SkipVarint, TakeDelimited;
    if wt == WT_VARINT {
      SkipVarintAppend(s, b);
    } else if wt == WT_STRING {
      TakeDelimitedAppend(s, b);
    } else if wt == WT_64BIT {
      assert (s + b)[8..] == s[8..] + b;
    } else {
      assert (s + b)[4..] == s[4..] + b;
    }
  }

  // ---- Composition ----

  // Once a first part decodes, the whole decodes like the second part onto its result; unless
  // a zero tag in the first part has ended the message, and then the second part is left over.
  lemma {:induction false} DecodeInParts(fs: seq<Field>, m: seq<Slot>, seen: set<nat>, a: seq<byte>, b: seq<byte>)
    requires |m| == |fs| && DecFields(fs, m, seen, a).Some?
    ensures var l := DecFields(fs, m, seen, a).value;
            DecFields(fs, m, seen, a + b) ==
            if l.stopped then Some(l.(rest := l.rest + b)) else DecFields(fs, l.m, l.seen, b)
    decreases |a|
  {
    hide Dec32, DecSlot, Skip, Store, FindTag;
    if |a| == 0 {
      assert a + b == b;
    } else {
      Dec32Append(a, b);
      var (key, u) := Dec32(a).value;
      var i := FindTag(fs, key / 8);
      if key == 0 {
      } else if i == |fs| {
        SkipAppend(key % 8, u, b);
        DecodeInParts(fs, m, seen, Skip(key % 8, u).value, b);
      } else {
        DecSlotAppend(fs[i], key % 8, m[i], u, b);
        var d := DecSlot(fs[i], key % 8, m[i], u).value;
        DecodeInParts(fs, Store(fs, m, i, d.0), seen + {i}, d.1, b);
      }
    }
  }

  // ---- What else is accepted ----

  // A byte 0 where a key is expected ends the message; what follows it is left over.
  lemma ZeroTagStops(fs: seq<Field>, m: seq<Slot>, rest: seq<byte>)
    requires ValidFields(fs) && TypedMessage(fs, m)
    requires Encode(fs, m).Some? && |Encode(fs, m).value| < TWO32 && PbRoundTrip.TerminatedFrom(fs, m, 0)
    ensures Decode(fs, Encode(fs, m).value + ([0] + rest)) == Some((m, rest))
  {
    hide DecFields, EncFields, PbRoundTrip.TerminatedFrom, AllSeen, PbRoundTrip.SeenFrom, TypedMessage, ValidFields;
    var seen := {} + PbRoundTrip.SeenFrom(fs, m, 0);
    PbRoundTrip.FieldsDecode(fs, m, 0, Defaults(fs), {});
    PbRoundTrip.AllRequiredSeen(fs, m);
    DecodeInParts(fs, Defaults(fs), {}, Encode(fs, m).value, [0] + rest);
    StopsAtZero(fs, m, seen, rest);
  }

  lemma StopsAtZero(fs: seq<Field>, m: seq<Slot>, seen: set<nat>, rest: seq<byte>)
    requires |m| == |fs|
    ensures DecFields(fs, m, seen, [0] + rest) == Some(Loop(m, seen, rest, true))
  {
    assert ([0] + rest)[1..] == rest;
  }

  // The wire type in the key of a singular field is not looked at.
  lemma WireTypeIgnored(fs: seq<Field>, m: seq<Slot>, seen: set<nat>, i: nat, wt: nat, body: seq<byte>)
    requires ValidFields(fs) && |m| == |fs| && i < |fs| && wt < 8 && !fs[i].htype.Repeated?
    ensures DecFields(fs, m, seen, EncTag(fs[i], wt) + body) ==
            DecFields(fs, m, seen, EncTag(fs[i], WireType(fs[i].ltype)) + body)
  {
    hide DecFields, DecValue, EncTag, Store, ValidFields;
    PbRoundTrip.Record(fs, m, seen, i, wt, body);
    PbRoundTrip.Record(fs, m, seen, i, WireType(fs[i].ltype), body);
  }

  // Numbers of an array are also taken one by one, as an encoder that does not pack sends them.
  lemma UnpackedAccepted(fs: seq<Field>, m: seq<Slot>, seen: set<nat>, i: nat, wt: nat, v: Value, rest: seq<byte>)
    requires ValidFields(fs) && i < |fs| == |m| && ValidField(fs[i]) && m[i].Many? && wt < 8 && wt != 2
    requires fs[i].htype.Repeated? && Packable(fs[i].ltype) && TypedValue(fs[i], v)
    ensures DecFields(fs, m, seen, EncTag(fs[i], wt) + (EncNumber(fs[i], v) + rest)) ==
            if |m[i].vs| < fs[i].arraySize then DecFields(fs, m[i := Many(m[i].vs + [v])], seen + {i}, rest) else None
  {
    hide DecFields, DecNumber, EncNumber, EncTag, Store, ValidFields, ValidField, TypedValue, DefaultOf;
    PbRoundTrip.Record(fs, m, seen, i, wt, EncNumber(fs[i], v) + rest);
    PbRoundTrip.NumberRoundTrip(fs[i], v, rest);
    StoreArray(fs, m, i, Many(m[i].vs + [v]));
  }

  lemma StoreArray(fs: seq<Field>, m: seq<Slot>, i: nat, slot: Slot)
    requires i < |fs| == |m| && fs[i].htype.Repeated?
    ensures Store(fs, m, i, slot) == m[i := slot]
  {
  }

  // ---- What is skipped ----

  // A record as any encoder may write it: its wire type and the bytes after its key.
  datatype Record = VarintRecord(bytes: seq<byte>) | Record64(bytes: seq<byte>) | StringRecord(content: seq<byte>)
                  | Record32(bytes: seq<byte>)
  {
    function WireNumber(): nat {
      match this
      case VarintRecord(_) => 0
      case Record64(_) => 1
      case StringRecord(_) => 2
      case Record32(_) => 5
    }

    function Body(): seq<byte> {
      match this
      case StringRecord(content) => EncVarint(|content|) + content
      case _ => bytes
    }

    predicate Formed() {
      match this
      case VarintRecord(bytes) => EndsOnce(bytes)
      case Record64(bytes) => |bytes| == 8
      case StringRecord(content) => |content| < TWO32
      case Record32(bytes) => |bytes| == 4
    }
  }

  lemma {:induction false} SkipsVarint(s: seq<byte>, rest: seq<byte>)
    requires EndsOnce(s)
    ensures SkipVarint(s + rest) == Some(rest)
    decreases |s|
  {
    assert (s + rest)[1..] == s[1..] + rest;
    if |s| > 1 {
      SkipsVarint(s[1..], rest);
    } else {
      assert s[1..] + rest == rest;
    }
  }

  // The decoder steps over exactly the body, whatever follows it.
  lemma SkipExactly(r: Record, rest: seq<byte>)
    requires r.Formed()
    ensures Skip(r.WireNumber(), r.Body() + rest) == Some(rest)
  {
    hide SkipVarint, TakeDelimited, EncVarint, EndsOnce;
    match r
    case VarintRecord(bytes) => SkipsVarint(bytes, rest);
    case Record64(bytes) => assert (bytes + rest)[8..] == rest;
    case StringRecord(content) => PbRoundTrip.DelimitedRoundTrip(content, rest);
    case Record32(bytes) => assert (bytes + rest)[4..] == rest;
  }

  // A value of any 64-bit varint field is passed over whole.
  lemma SkipsValue(u: nat, rest: seq<byte>)
    ensures Skip(0, EncVarint(u) + rest) == Some(rest)
  {
    VarintShape(u);
    SkipsVarint(EncVarint(u), rest);
  }

  // And it refuses exactly the bodies that are cut short, and the wire types it does not know.
  lemma SkipRefuses(wt: nat, s: seq<byte>)
    ensures Skip(wt, s).None? <==>
            match wt
            case 0 => forall i :: 0 <= i < |s| ==> s[i] >= 128
            case 1 => |s| < 8
            case 2 => Dec32(s).None? || |Dec32(s).value.1| < Dec32(s).value.0
            case 5 => |s| < 4
            case _ => true
  {
    hide Dec32;
    if wt == 0 {
      NeverEnds(s);
    }
  }

  lemma {:induction false} NeverEnds(s: seq<byte>)
    ensures SkipVarint(s).None? <==> forall i :: 0 <= i < |s| ==> s[i] >= 128
    decreases |s|
  {
    if |s| > 0 {
      NeverEnds(s[1..]);
      assert forall i :: 1 <= i < |s| ==> s[i] == s[1..][i - 1];
    }
  }

  // ---- Unknown fields ----

  // A tag that no field of the list has.
  predicate UnknownTag(fs: seq<Field>, tag: nat) {
    0 < tag < 0x2000_0000 && forall i :: 0 <= i < |fs| ==> fs[i].tag != tag
  }

  function RecordBytes(tag: nat, r: Record): seq<byte> {
    EncVarint(8 * tag + r.WireNumber()) + r.Body()
  }

  lemma UnknownIsSkipped(fs: seq<Field>, m: seq<Slot>, seen: set<nat>, tag: nat, r: Record, b: seq<byte>)
    requires |m| == |fs| && UnknownTag(fs, tag) && r.Formed()
    ensures DecFields(fs, m, seen, RecordBytes(tag, r) + b) == DecFields(fs, m, seen, b)
  {
    hide Dec32, DecSlot, Skip, Store, FindTag, EncVarint, Record.Body, Record.Formed;
    var wt := r.WireNumber();
    assert wt < 8;
    hide Record.WireNumber;
    assert RecordBytes(tag, r) + b == EncVarint(8 * tag + wt) + (r.Body() + b);
    Dec32Exactly(8 * tag + wt, r.Body() + b);
    SkipExactly(r, b);
    assert FindTag(fs, tag) == |fs|;
    assert |EncVarint(8 * tag + wt)| > 0;
  }

  // Inserting an unknown record where one field ends and the next begins changes nothing.
  lemma UnknownInserted(fs: seq<Field>, m: seq<Slot>, tag: nat, r: Record, a: seq<byte>, b: seq<byte>)
    requires |m| == |fs| && UnknownTag(fs, tag) && r.Formed()
    requires DecFields(fs, m, {}, a).Some? && !DecFields(fs, m, {}, a).value.stopped
    ensures DecodeOnto(fs, m, a + RecordBytes(tag, r) + b) == DecodeOnto(fs, m, a + b)
  {
    hide DecFields, RecordBytes, UnknownTag, Record.Formed, AllSeen;
    var u := RecordBytes(tag, r);
    var l := DecFields(fs, m, {}, a).value;
    assert a + u + b == a + (u + b);
    DecodeInParts(fs, m, {}, a, u + b);
    DecodeInParts(fs, m, {}, a, b);
    UnknownIsSkipped(fs, l.m, l.seen, tag, r, b);
  }

  // ---- Required fields ----

  // A decode that succeeds has seen every required field among the first 64.
  lemma RequiredWereSeen(fs: seq<Field>, m: seq<Slot>, s: seq<byte>)
    requires |m| == |fs|
    ensures DecodeOnto(fs, m, s).Some? <==>
            DecFields(fs, m, {}, s).Some? && RequiredSeen(fs, DecFields(fs, m, {}, s).value.seen)
  {
    hide DecFields, RequiredBefore;
    if DecFields(fs, m, {}, s).Some? {
      AllSeenIs(fs, DecFields(fs, m, {}, s).value.seen, |fs|);
    }
  }
}
