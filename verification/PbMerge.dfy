// One message after another: what the decoder makes of a field that comes again.
module PbMerge {
  import opened Octets
  import opened Wrappers
  import opened PbWire
  import opened PbTypes
  import opened PbFormat
  import opened PbRoundTrip
  import PbCompose
  import PbShape

  // ---- What the second message does to the first ----

  // A number, a string or bytes replace the old value; the submessage of a singular field is
  // merged into the old one, that of a oneof replaces it.
  function MergeValue(f: Field, old_: Value, v: Value): Value
    requires ValidField(f) && TypedValue(f, v)
    decreases v, 1
  {
    if f.ltype.Submessage? && !f.htype.Oneof? && old_.Msg? && |old_.slots| == |f.sub|
    then Msg(Merged(f.sub, old_.slots, v.slots)) else v
  }

  // The entries of an array go behind the old ones; a field that was not sent keeps its value.
  function MergeSlot(f: Field, s: Slot, t: Slot): Slot
    requires ValidField(f) && TypedSlot(f, t)
    decreases t, 2
  {
    if f.htype.Repeated? then (if s.Many? then Many(s.vs + t.vs) else t)
    else if Emits(f, t) then One(MergeValue(f, ValueIn(f, s), t.v))
    else s
  }

  // Another alternative of the oneof is among the first k fields of n that are sent.
  predicate Displaced(fs: seq<Field>, n: seq<Slot>, i: nat, k: nat)
    requires i < |fs| == |n| && k <= |fs|
  {
    exists j :: 0 <= j < k && j != i && SameGroup(fs[j], fs[i]) && n[j].One?
  }

  // The structure after the first k fields of n.
  function MergedTo(fs: seq<Field>, m: seq<Slot>, n: seq<Slot>, k: nat): (r: seq<Slot>)
    requires ValidFields(fs) && TypedMessage(fs, n) && |m| == |fs| && k <= |fs|
    ensures |r| == |fs|
    decreases n, 3
  {
    seq(|fs|, i requires 0 <= i < |fs| =>
      if Displaced(fs, n, i, k) then Absent else if i < k then MergeSlot(fs[i], m[i], n[i]) else m[i])
  }

  function Merged(fs: seq<Field>, m: seq<Slot>, n: seq<Slot>): (r: seq<Slot>)
    requires ValidFields(fs) && TypedMessage(fs, n) && |m| == |fs|
    ensures |r| == |fs|
    decreases n, 4
  {
    MergedTo(fs, m, n, |fs|)
  }

  // The joined arrays are within their capacity, at every depth where messages are merged.
  predicate ValueFits(f: Field, old_: Value, v: Value)
    requires ValidField(f) && TypedValue(f, v)
    decreases v, 1
  {
    f.ltype.Submessage? && !f.htype.Oneof? && old_.Msg? && |old_.slots| == |f.sub| ==>
      FitsFrom(f.sub, old_.slots, v.slots, 0)
  }

  predicate SlotFits(f: Field, s: Slot, t: Slot)
    requires ValidField(f) && TypedSlot(f, t)
    decreases t, 2
  {
    if f.htype.Repeated? then |t.vs| == 0 || (s.Many? && |s.vs| + |t.vs| <= f.arraySize)
    else Emits(f, t) ==> ValueFits(f, ValueIn(f, s), t.v)
  }

  predicate FitsFrom(fs: seq<Field>, m: seq<Slot>, n: seq<Slot>, i: nat)
    requires ValidFields(fs) && TypedMessage(fs, n) && |m| == |fs| && i <= |fs|
    decreases n, 4, |fs| - i
  {
    i == |fs| || (SlotFits(fs[i], m[i], n[i]) && FitsFrom(fs, m, n, i + 1))
  }

  // ---- One field of the second message ----

  lemma NotDisplaced(fs: seq<Field>, n: seq<Slot>, i: nat)
    requires ValidFields(fs) && TypedMessage(fs, n) && i < |fs| && (fs[i].htype.Oneof? ==> n[i].One?)
    ensures !Displaced(fs, n, i, i)
  {
    hide TypedSlot, ValidField;
  }

  lemma NotSent(f: Field, s: Slot, t: Slot)
    requires ValidField(f) && TypedSlot(f, t) && !Emits(f, t) && (f.htype.Repeated? ==> s.Many?)
    ensures MergeSlot(f, s, t) == s && (f.htype.Oneof? ==> !t.One?)
  {
    hide ValidField, TypedValue, IsZero;
    if f.htype.Repeated? {
      assert s.vs + [] == s.vs;
    }
  }

  lemma SentAlternative(f: Field, t: Slot)
    requires ValidField(f) && TypedSlot(f, t) && Emits(f, t)
    ensures f.htype.Oneof? ==> t.One?
  {
    hide ValidField, TypedValue, IsZero;
  }

  lemma DisplacedNext(fs: seq<Field>, n: seq<Slot>, j: nat, i: nat)
    requires i < |fs| == |n| && j < |fs|
    ensures Displaced(fs, n, j, i + 1) <==> Displaced(fs, n, j, i) || (j != i && SameGroup(fs[i], fs[j]) && n[i].One?)
  {
  }

  // Where the decoder stands after one more field.
  lemma NextMerged(fs: seq<Field>, m: seq<Slot>, n: seq<Slot>, i: nat)
    requires ValidFields(fs) && TypedMessage(fs, n) && |m| == |fs| && i < |fs| && (fs[i].htype.Repeated? ==> m[i].Many?)
    ensures var f, st, next := fs[i], MergedTo(fs, m, n, i), MergedTo(fs, m, n, i + 1);
            && ValidField(f) && TypedSlot(f, n[i])
            && (Emits(f, n[i]) ==> st[i] == m[i] && Store(fs, st, i, MergeSlot(f, m[i], n[i])) == next)
            && (!Emits(f, n[i]) ==> next == st)
  {
    Shape(fs, n, i);
    var f, st, next := fs[i], MergedTo(fs, m, n, i), MergedTo(fs, m, n, i + 1);
    forall j | 0 <= j < |fs|
      ensures Displaced(fs, n, j, i + 1) <==> Displaced(fs, n, j, i) || (j != i && SameGroup(f, fs[j]) && n[i].One?)
    {
      DisplacedNext(fs, n, j, i);
    }
    if Emits(f, n[i]) {
      SentAlternative(f, n[i]);
      NotDisplaced(fs, n, i);
      hide MergeSlot, Emits, TypedMessage, ValidFields, TypedSlot, ValidField, Displaced;
      SentNext(fs, n, i);
    } else {
      NotSent(f, m[i], n[i]);
      hide MergeSlot, Emits, TypedMessage, ValidFields, TypedSlot, ValidField, Displaced;
    }
  }

  lemma SentNext(fs: seq<Field>, n: seq<Slot>, i: nat)
    requires i < |fs| == |n|
    ensures !fs[i].htype.Oneof? ==> forall j :: 0 <= j < |fs| ==> !SameGroup(fs[i], fs[j])
  {
  }

  // ---- Values ----

  // A value decoded onto an old one.
  lemma {:induction false} ValueOnto(f: Field, old_: Value, v: Value, rest: seq<byte>)
    requires ValidField(f) && TypedValue(f, old_) && TypedValue(f, v) && !f.htype.Repeated? && Terminated(f, v)
    requires EncValue(f, v).Some? && |EncValue(f, v).value| < TWO32
    ensures DecValue(f, old_, EncValue(f, v).value + rest) ==
            if ValueFits(f, old_, v) then Some((MergeValue(f, old_, v), rest)) else None
    decreases v, 1
  {
    if !f.ltype.Submessage? || f.htype.Oneof? {
      ValueDecodes(f, v, rest);
      PbShape.DefaultSound(false, f);
      BaseIgnored(f, old_, DefaultOf(f), EncValue(f, v).value + rest);
    } else {
      assert TypedMessage(f.sub, v.slots) && TypedMessage(f.sub, old_.slots) && ValidFields(f.sub);
      var e := EncFields(f.sub, v.slots, 0).value;
      TerminatedMessage(f, v);
      DelimitedSize(e);
      FieldsOnto(f.sub, old_.slots, v.slots, 0, {});
      NothingMerged(f.sub, old_.slots, v.slots);
      AllRequiredSeen(f.sub, v.slots);
      SubmessageOnto(f, old_, v, e, rest);
    }
  }

  lemma BaseIgnored(f: Field, a: Value, b: Value, s: seq<byte>)
    requires ValidField(f) && TypedValue(f, a) && TypedValue(f, b) && (f.ltype.Submessage? ==> f.htype.Oneof?)
    ensures DecValue(f, a, s) == DecValue(f, b, s)
  {
    hide DecNumber, DecBlob, TakeDelimited, DecodeOnto, ValidField, TypedMessage;
  }

  lemma SubmessageOnto(f: Field, old_: Value, v: Value, e: seq<byte>, rest: seq<byte>)
    requires f.ltype.Submessage? && !f.htype.Oneof? && !f.htype.Repeated?
    requires ValidField(f) && TypedValue(f, old_) && TypedValue(f, v)
    requires ValidFields(f.sub) && TypedMessage(f.sub, v.slots) && EncFields(f.sub, v.slots, 0) == Some(e)
    requires |Delimited(e)| < TWO32
    requires |old_.slots| == |f.sub|
    requires DecFields(f.sub, old_.slots, {}, e) ==
             if FitsFrom(f.sub, old_.slots, v.slots, 0)
             then Some(Loop(Merged(f.sub, old_.slots, v.slots), {} + SeenFrom(f.sub, v.slots, 0), [], false)) else None
    requires AllSeen(f.sub, {} + SeenFrom(f.sub, v.slots, 0), |f.sub|)
    ensures EncValue(f, v).Some? && EncValue(f, v).value == Delimited(e)
    ensures DecValue(f, old_, Delimited(e) + rest) ==
            if ValueFits(f, old_, v) then Some((MergeValue(f, old_, v), rest)) else None
  {
    hide Dec32, EncVarint, TakeDelimited, DecFields, EncFields, FitsFrom, Merged, SeenFrom, AllSeen;
    DelimitedSize(e);
    DelimitedRoundTrip(e, rest);
  }

  lemma NothingMerged(fs: seq<Field>, m: seq<Slot>, n: seq<Slot>)
    requires ValidFields(fs) && TypedMessage(fs, n) && |m| == |fs|
    ensures MergedTo(fs, m, n, 0) == m
  {
    hide MergeSlot;
  }

  // ---- Arrays ----

  lemma {:induction false} NumbersOnto(f: Field, done: seq<Value>, vs: seq<Value>)
    requires Packable(f.ltype) && ValidField(f) && (forall k :: 0 <= k < |vs| ==> TypedValue(f, vs[k]))
    ensures DecPacked(f, done, EncNumbers(f, vs)) ==
            if |vs| == 0 || |done| + |vs| <= f.arraySize then Some(done + vs) else None
    decreases |vs|
  {
    hide EncNumber, DecNumber;
    if |vs| == 0 {
      assert done + vs == done;
    } else {
      var rest := EncNumbers(f, vs[1..]);
      NumberRoundTrip(f, vs[0], rest);
      NumbersOnto(f, done + [vs[0]], vs[1..]);
      assert done + [vs[0]] + vs[1..] == done + vs;
    }
  }

  lemma {:induction false} EntriesOnto(fs: seq<Field>, st: seq<Slot>, seen: set<nat>, i: nat, done: seq<Value>, vs: seq<Value>,
                                       rest: seq<byte>)
    requires ValidFields(fs) && i < |fs| == |st| && ValidField(fs[i])
    requires st[i] == Many(done) && fs[i].htype.Repeated? && !Packable(fs[i].ltype)
    requires (forall k :: 0 <= k < |vs| ==> TypedValue(fs[i], vs[k])) && TerminatedAll(fs[i], vs)
    requires EncEntries(fs[i], vs).Some? && |EncEntries(fs[i], vs).value| < TWO32
    ensures DecFields(fs, st, seen, EncEntries(fs[i], vs).value + rest) ==
            if |vs| == 0 then DecFields(fs, st, seen, rest)
            else if |done| + |vs| <= fs[i].arraySize then DecFields(fs, st[i := Many(done + vs)], seen + {i}, rest)
            else None
    decreases |vs|
  {
    hide DecFields, DecValue, EncValue, EncTag, Terminated, Store, ValidFields, ValidField, TypedValue, DefaultOf;
    var f := fs[i];
    if |vs| == 0 {
      assert [] + rest == rest;
    } else {
      var wt, e := WireType(f.ltype), EncValue(f, vs[0]).value;
      var more := EncEntries(f, vs[1..]).value;
      var done' := done + [vs[0]];
      assert EncTag(f, wt) + e + more + rest == EncTag(f, wt) + (e + (more + rest));
      Record(fs, st, seen, i, wt, e + (more + rest));
      ValueDecodes(f, vs[0], more + rest);
      PbCompose.StoreArray(fs, st, i, Many(done'));
      if |done| < f.arraySize {
        EntriesOnto(fs, st[i := Many(done')], seen + {i}, i, done', vs[1..], rest);
        assert done' + vs[1..] == done + vs && st[i := Many(done')][i := Many(done + vs)] == st[i := Many(done + vs)];
        assert seen + {i} + {i} == seen + {i};
        if |vs| == 1 {
          assert done' == done + vs;
        }
      }
    }
  }

  lemma PackedOnto(fs: seq<Field>, st: seq<Slot>, seen: set<nat>, i: nat, done: seq<Value>, vs: seq<Value>, rest: seq<byte>)
    requires ValidFields(fs) && i < |fs| == |st| && ValidField(fs[i])
    requires st[i] == Many(done) && fs[i].htype.Repeated? && Packable(fs[i].ltype)
    requires (forall k :: 0 <= k < |vs| ==> TypedValue(fs[i], vs[k])) && |vs| > 0
    requires |EncNumbers(fs[i], vs)| < TWO32
    ensures DecFields(fs, st, seen, EncTag(fs[i], WT_STRING) + Delimited(EncNumbers(fs[i], vs)) + rest) ==
            if |done| + |vs| <= fs[i].arraySize then DecFields(fs, st[i := Many(done + vs)], seen + {i}, rest) else None
  {
    hide DecFields, DecValue, EncTag, Store, ValidFields, ValidField, TypedValue, EncNumbers, DecPacked, Delimited, TakeDelimited;
    var f := fs[i];
    var b := EncNumbers(f, vs);
    assert EncTag(f, WT_STRING) + Delimited(b) + rest == EncTag(f, WT_STRING) + (Delimited(b) + rest);
    Record(fs, st, seen, i, WT_STRING, Delimited(b) + rest);
    DelimitedRoundTrip(b, rest);
    NumbersOnto(f, done, vs);
    PbCompose.StoreArray(fs, st, i, Many(done + vs));
  }

  // ---- Fields ----

  lemma SingularOnto(fs: seq<Field>, st: seq<Slot>, seen: set<nat>, i: nat, v: Value, rest: seq<byte>)
    requires ValidFields(fs) && i < |fs| == |st| && ValidField(fs[i]) && !fs[i].htype.Repeated?
    requires TypedValue(fs[i], ValueIn(fs[i], st[i])) && TypedValue(fs[i], v)
    requires EncTagged(fs[i], v).Some? && |EncTagged(fs[i], v).value| < TWO32
    requires DecValue(fs[i], ValueIn(fs[i], st[i]), EncValue(fs[i], v).value + rest) ==
             if ValueFits(fs[i], ValueIn(fs[i], st[i]), v) then Some((MergeValue(fs[i], ValueIn(fs[i], st[i]), v), rest)) else None
    ensures DecFields(fs, st, seen, EncTagged(fs[i], v).value + rest) ==
            if ValueFits(fs[i], ValueIn(fs[i], st[i]), v)
            then DecFields(fs, Store(fs, st, i, One(MergeValue(fs[i], ValueIn(fs[i], st[i]), v))), seen + {i}, rest) else None
  {
    hide DecFields, DecValue, EncValue, EncTag, Store, ValidFields, ValidField, TypedValue, ValueIn, ValueFits, MergeValue;
    var f := fs[i];
    var e, wt := EncValue(f, v).value, WireType(f.ltype);
    assert EncTag(f, wt) + e + rest == EncTag(f, wt) + (e + rest);
    Record(fs, st, seen, i, wt, e + rest);
  }

  lemma ValueOfTagged(f: Field, v: Value)
    requires ValidField(f) && TypedValue(f, v) && EncTagged(f, v).Some?
    ensures EncValue(f, v).Some? && |EncValue(f, v).value| < |EncTagged(f, v).value|
  {
    hide EncValue, ValidField, TypedValue;
  }

  lemma OldValueTyped(f: Field, s: Slot)
    requires ValidField(f) && TypedSlot(f, s) && !f.htype.Repeated?
    ensures TypedValue(f, ValueIn(f, s))
  {
    PbShape.DefaultSound(false, f);
    hide ValidField, TypedValue, DefaultOf;
  }

  lemma {:induction false} SlotOnto(fs: seq<Field>, m: seq<Slot>, n: seq<Slot>, i: nat, seen: set<nat>, rest: seq<byte>)
    requires ValidFields(fs) && TypedMessage(fs, m) && TypedMessage(fs, n) && i < |fs|
    requires ValidField(fs[i]) && TypedSlot(fs[i], m[i]) && TypedSlot(fs[i], n[i]) && TerminatedSlot(fs[i], n[i])
    requires EncSlot(fs[i], n[i]).Some? && |EncSlot(fs[i], n[i]).value| < TWO32
    ensures DecFields(fs, MergedTo(fs, m, n, i), seen, EncSlot(fs[i], n[i]).value + rest) ==
            if SlotFits(fs[i], m[i], n[i])
            then DecFields(fs, MergedTo(fs, m, n, i + 1), seen + (if Emits(fs[i], n[i]) then {i} else {}), rest) else None
    decreases n[i], 5
  {
    hide DecFields, EncTagged, EncEntries, EncNumbers, Delimited, Terminated, TerminatedAll, TypedMessage, ValidFields, ValidField,
      TypedValue, DefaultOf, IsZero, MergedTo, ValueFits, MergeValue, ValueIn, Store;
    Shape(fs, m, i);
    Shape(fs, n, i);
    var f, st, t := fs[i], MergedTo(fs, m, n, i), n[i];
    NextMerged(fs, m, n, i);
    if !Emits(f, t) {
      NothingToSend(f, t);
      assert [] + rest == rest && seen + {} == seen;
    } else if f.htype.Repeated? {
      PbCompose.StoreArray(fs, st, i, Many(m[i].vs + t.vs));
      if Packable(f.ltype) {
        DelimitedSize(EncNumbers(f, t.vs));
        PackedOnto(fs, st, seen, i, m[i].vs, t.vs, rest);
      } else {
        EntriesOnto(fs, st, seen, i, m[i].vs, t.vs, rest);
      }
    } else {
      OldValueTyped(f, m[i]);
      ValueOfTagged(f, t.v);
      ValueOnto(f, ValueIn(f, m[i]), t.v, rest);
      SingularOnto(fs, st, seen, i, t.v, rest);
    }
  }

  lemma {:induction false} FieldsOnto(fs: seq<Field>, m: seq<Slot>, n: seq<Slot>, i: nat, seen: set<nat>)
    requires ValidFields(fs) && TypedMessage(fs, m) && TypedMessage(fs, n) && i <= |fs|
    requires EncFields(fs, n, i).Some? && |EncFields(fs, n, i).value| < TWO32 && TerminatedFrom(fs, n, i)
    ensures DecFields(fs, MergedTo(fs, m, n, i), seen, EncFields(fs, n, i).value) ==
            if FitsFrom(fs, m, n, i) then Some(Loop(Merged(fs, m, n), seen + SeenFrom(fs, n, i), [], false)) else None
    decreases n, 6, |fs| - i
  {
    hide EncSlot, TerminatedSlot, SlotFits, Emits, TypedMessage, ValidFields, MergedTo;
    Shape(fs, n, i);
    Shape(fs, m, i);
    if i == |fs| {
      assert seen + {} == seen;
    } else {
      var rest := EncFields(fs, n, i + 1).value;
      SlotOnto(fs, m, n, i, seen, rest);
      var now := if Emits(fs[i], n[i]) then {i} else {};
      FieldsOnto(fs, m, n, i + 1, seen + now);
      assert seen + now + SeenFrom(fs, n, i + 1) == seen + (now + SeenFrom(fs, n, i + 1));
    }
  }

  // ---- Messages ----

  // Two encoded messages one after the other decode to the second merged into the first: the last
  // value of a field wins, arrays are joined, submessages are merged, and of a oneof the last
  // alternative stays. The decoder rejects them exactly if a joined array exceeds its capacity.
  lemma LastOneWins(fs: seq<Field>, m: seq<Slot>, n: seq<Slot>)
    requires ValidFields(fs) && TypedMessage(fs, m) && TypedMessage(fs, n)
    requires Encode(fs, m).Some? && |Encode(fs, m).value| < TWO32 && TerminatedFrom(fs, m, 0)
    requires Encode(fs, n).Some? && |Encode(fs, n).value| < TWO32 && TerminatedFrom(fs, n, 0)
    ensures Decode(fs, Encode(fs, m).value + Encode(fs, n).value) ==
            if FitsFrom(fs, m, n, 0) then Some((Merged(fs, m, n), [])) else None
  {
    hide DecFields, EncFields, TerminatedFrom, FitsFrom, AllSeen, SeenFrom, TypedMessage, ValidFields, Merged, MergedTo;
    var a, b := Encode(fs, m).value, Encode(fs, n).value;
    var seen := {} + SeenFrom(fs, m, 0);
    FieldsDecode(fs, m, 0, Defaults(fs), {});
    PbCompose.DecodeInParts(fs, Defaults(fs), {}, a, b);
    NothingMerged(fs, m, n);
    FieldsOnto(fs, m, n, 0, seen);
    AllRequiredSeen(fs, m);
    MoreSeen(fs, seen, SeenFrom(fs, n, 0));
  }

  lemma MoreSeen(fs: seq<Field>, a: set<nat>, b: set<nat>)
    requires AllSeen(fs, a, |fs|)
    ensures AllSeen(fs, a + b, |fs|)
  {
    hide RequiredBefore, AllSeen;
    AllSeenIs(fs, a, |fs|);
    AllSeenIs(fs, a + b, |fs|);
  }
}
