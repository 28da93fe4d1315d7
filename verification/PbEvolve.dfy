// Two programs with different descriptor lists: what a message of one is to the other.
module PbEvolve {
  import opened Octets
  import opened Wrappers
  import opened PbWire
  import opened PbTypes
  import opened PbFormat
  import opened PbRoundTrip
  import opened PbCompose
  import PbShape

  // ---- A part of a list ----

  // How many of the first i positions are kept.
  function Rank(keep: set<nat>, i: nat): nat {
    if i == 0 then 0 else Rank(keep, i - 1) + if i - 1 in keep then 1 else 0
  }

  // The kept ones among the first i elements.
  function Kept<T>(s: seq<T>, keep: set<nat>, i: nat): (r: seq<T>)
    requires i <= |s|
    ensures |r| == Rank(keep, i)
  {
    if i == 0 then [] else Kept(s, keep, i - 1) + if i - 1 in keep then [s[i - 1]] else []
  }

  lemma {:induction false} KeptAt<T>(s: seq<T>, keep: set<nat>, i: nat, n: nat)
    requires i < n <= |s|
    ensures Rank(keep, i + 1) <= Rank(keep, n)
    ensures i in keep ==> Rank(keep, i) < Rank(keep, n) && Kept(s, keep, n)[Rank(keep, i)] == s[i]
    decreases n
  {
    if i < n - 1 {
      KeptAt(s, keep, i, n - 1);
    }
  }

  // Where the b-th kept element comes from.
  lemma {:induction false} Source(keep: set<nat>, n: nat, b: nat) returns (k: nat)
    requires b < Rank(keep, n)
    ensures k < n && k in keep && Rank(keep, k) == b
    decreases n
  {
    if n - 1 in keep && Rank(keep, n - 1) == b {
      k := n - 1;
    } else {
      k := Source(keep, n - 1, b);
    }
  }

  // The list without the other fields.
  function Part<T>(s: seq<T>, keep: set<nat>): (r: seq<T>)
    ensures |r| == Rank(keep, |s|)
  {
    Kept(s, keep, |s|)
  }

  lemma PartOf<T>(s: seq<T>, keep: set<nat>, k: nat)
    requires k < |s| && k in keep
    ensures Rank(keep, k) < |Part(s, keep)| && Part(s, keep)[Rank(keep, k)] == s[k]
  {
    KeptAt(s, keep, k, |s|);
  }

  lemma {:induction false} RankMonotone(keep: set<nat>, i: nat, j: nat)
    requires i <= j
    ensures Rank(keep, i) <= Rank(keep, j)
    decreases j
  {
    if i < j {
      RankMonotone(keep, i, j - 1);
    }
  }

  lemma PartValid(fs: seq<Field>, keep: set<nat>)
    requires ValidFields(fs)
    ensures ValidFields(Part(fs, keep))
  {
    hide ValidField, Kept, Rank;
    var ws := Part(fs, keep);
    forall b | 0 <= b < |ws| ensures ValidField(ws[b]) {
      var k := Source(keep, |fs|, b);
      PartOf(fs, keep, k);
    }
    forall a, b | 0 <= a < b < |ws| ensures ws[a].tag != ws[b].tag {
      var j := Source(keep, |fs|, a);
      var k := Source(keep, |fs|, b);
      PartOf(fs, keep, j);
      PartOf(fs, keep, k);
    }
  }

  lemma PartTyped(fs: seq<Field>, m: seq<Slot>, keep: set<nat>)
    requires TypedMessage(fs, m)
    ensures TypedMessage(Part(fs, keep), Part(m, keep))
  {
    hide TypedSlot, SameGroup, Kept, Rank;
    var ws, ms := Part(fs, keep), Part(m, keep);
    forall b | 0 <= b < |ws| ensures TypedSlot(ws[b], ms[b]) {
      var k := Source(keep, |fs|, b);
      PartOf(fs, keep, k);
      PartOf(m, keep, k);
    }
    forall a, b | 0 <= a < b < |ws| && SameGroup(ws[a], ws[b]) && ms[a].One? ensures ms[b].Absent? {
      var j := Source(keep, |fs|, a);
      var k := Source(keep, |fs|, b);
      PartOf(fs, keep, j);
      PartOf(m, keep, j);
      PartOf(fs, keep, k);
      PartOf(m, keep, k);
      Ordered(keep, j, k);
    }
  }

  lemma Ordered(keep: set<nat>, j: nat, k: nat)
    requires Rank(keep, j) < Rank(keep, k)
    ensures j < k
  {
    if k <= j {
      RankMonotone(keep, k, j);
    }
  }

  // ---- A reader that does not know some of the fields ----

  // The record of one value.
  function RecordOf(f: Field, v: Value): (r: Record)
    requires ValidField(f) && TypedValue(f, v) && EncValue(f, v).Some?
  {
    match f.ltype
    case Varint => VarintRecord(EncNumber(f, v))
    case UVarint => VarintRecord(EncNumber(f, v))
    case SVarint => VarintRecord(EncNumber(f, v))
    case Fixed32 => Record32(EncNumber(f, v))
    case Fixed64 => Record64(EncNumber(f, v))
    case Submessage => StringRecord(EncFields(f.sub, v.slots, 0).value)
    case _ => StringRecord(v.bytes)
  }

  lemma IsRecord(f: Field, v: Value)
    requires ValidField(f) && TypedValue(f, v) && EncValue(f, v).Some? && |EncValue(f, v).value| < TWO32
    ensures RecordOf(f, v).Formed()
    ensures EncTagged(f, v).value == RecordBytes(f.tag, RecordOf(f, v))
  {
    hide EncFields, EncVarint, EndsOnce, LittleEndian, AsUint64, ZigZag;
    match f.ltype
    case Varint => VarintShape(AsUint64(v.n));
    case UVarint => VarintShape(v.n);
    case SVarint => VarintShape(ZigZag(v.n));
    case Fixed32 =>
    case Fixed64 =>
    case Submessage =>
    case _ =>
  }

  lemma TaggedSkipped(ws: seq<Field>, st: seq<Slot>, seen: set<nat>, f: Field, v: Value, rest: seq<byte>)
    requires |st| == |ws| && UnknownTag(ws, f.tag)
    requires ValidField(f) && TypedValue(f, v) && EncTagged(f, v).Some? && |EncTagged(f, v).value| < TWO32
    ensures DecFields(ws, st, seen, EncTagged(f, v).value + rest) == DecFields(ws, st, seen, rest)
  {
    hide DecFields, EncValue, EncTag, RecordOf, RecordBytes, Record.Formed, UnknownTag, ValidField, TypedValue;
    IsRecord(f, v);
    UnknownIsSkipped(ws, st, seen, f.tag, RecordOf(f, v), rest);
  }

  lemma {:induction false} EntriesSkipped(ws: seq<Field>, st: seq<Slot>, seen: set<nat>, f: Field, vs: seq<Value>, rest: seq<byte>)
    requires |st| == |ws| && UnknownTag(ws, f.tag)
    requires ValidField(f) && (forall i :: 0 <= i < |vs| ==> TypedValue(f, vs[i]))
    requires EncEntries(f, vs).Some? && |EncEntries(f, vs).value| < TWO32
    ensures DecFields(ws, st, seen, EncEntries(f, vs).value + rest) == DecFields(ws, st, seen, rest)
    decreases |vs|
  {
    hide DecFields, EncTagged, UnknownTag, ValidField, TypedValue;
    if |vs| == 0 {
      assert [] + rest == rest;
    } else {
      var e, more := EncTagged(f, vs[0]).value, EncEntries(f, vs[1..]).value;
      assert e + more + rest == e + (more + rest);
      TaggedSkipped(ws, st, seen, f, vs[0], more + rest);
      EntriesSkipped(ws, st, seen, f, vs[1..], rest);
    }
  }

  lemma PackedSkipped(ws: seq<Field>, st: seq<Slot>, seen: set<nat>, f: Field, vs: seq<Value>, rest: seq<byte>)
    requires |st| == |ws| && UnknownTag(ws, f.tag)
    requires ValidField(f) && Packable(f.ltype) && (forall i :: 0 <= i < |vs| ==> TypedValue(f, vs[i]))
    requires |EncNumbers(f, vs)| < TWO32
    ensures DecFields(ws, st, seen, EncTag(f, 2) + Delimited(EncNumbers(f, vs)) + rest) == DecFields(ws, st, seen, rest)
  {
    hide DecFields, EncNumbers, UnknownTag, ValidField, TypedValue;
    UnknownIsSkipped(ws, st, seen, f.tag, StringRecord(EncNumbers(f, vs)), rest);
  }

  lemma SlotSkipped(ws: seq<Field>, st: seq<Slot>, seen: set<nat>, f: Field, slot: Slot, rest: seq<byte>)
    requires |st| == |ws| && UnknownTag(ws, f.tag)
    requires ValidField(f) && TypedSlot(f, slot) && EncSlot(f, slot).Some? && |EncSlot(f, slot).value| < TWO32
    ensures DecFields(ws, st, seen, EncSlot(f, slot).value + rest) == DecFields(ws, st, seen, rest)
  {
    hide DecFields, EncTagged, EncEntries, EncNumbers, EncTag, Delimited, UnknownTag, ValidField, TypedValue, IsZero;
    assert [] + rest == rest;
    if f.htype.Repeated? {
      if |slot.vs| > 0 && Packable(f.ltype) {
        DelimitedSize(EncNumbers(f, slot.vs));
        PackedSkipped(ws, st, seen, f, slot.vs, rest);
      } else if |slot.vs| > 0 {
        EntriesSkipped(ws, st, seen, f, slot.vs, rest);
      }
    } else if slot.One? && EncSlot(f, slot) == EncTagged(f, slot.v) {
      TaggedSkipped(ws, st, seen, f, slot.v, rest);
    }
  }

  lemma NotKept(fs: seq<Field>, keep: set<nat>, i: nat)
    requires ValidFields(fs) && i < |fs| && i !in keep
    ensures UnknownTag(Part(fs, keep), fs[i].tag)
  {
    hide Kept, Rank;
    var ws := Part(fs, keep);
    assert ValidField(fs[i]);
    forall b | 0 <= b < |ws| ensures ws[b].tag != fs[i].tag {
      var k := Source(keep, |fs|, b);
      PartOf(fs, keep, k);
    }
  }

  lemma NextFilled(ws: seq<Field>, ms: seq<Slot>, p: nat, st: seq<Slot>)
    requires |ms| == |ws| && p < |ws| && FilledTo(ws, ms, p, st)
    ensures FilledTo(ws, ms, p + 1, st[p := ms[p]])
  {
    hide DefaultSlot;
  }

  // From the i-th field of the writer on, the reader being at the field of that rank.
  lemma {:induction false} PartDecodes(fs: seq<Field>, m: seq<Slot>, keep: set<nat>, i: nat, st: seq<Slot>, seen: set<nat>)
    requires ValidFields(fs) && TypedMessage(fs, m) && i <= |fs|
    requires EncFields(fs, m, i).Some? && |EncFields(fs, m, i).value| < TWO32
    requires ValidFields(Part(fs, keep)) && TypedMessage(Part(fs, keep), Part(m, keep))
    requires Rank(keep, i) <= |Part(fs, keep)| && FilledTo(Part(fs, keep), Part(m, keep), Rank(keep, i), st)
    ensures var (ws, ms, p) := (Part(fs, keep), Part(m, keep), Rank(keep, i));
            DecFields(ws, st, seen, EncFields(fs, m, i).value) ==
            if TerminatedFrom(ws, ms, p) then Some(Loop(ms, seen + SeenFrom(ws, ms, p), [], false)) else None
    decreases |fs| - i
  {
    hide EncSlot, TerminatedSlot, Emits, TypedMessage, ValidFields, DefaultSlot, Part, UnknownTag;
    var ws, ms, p := Part(fs, keep), Part(m, keep), Rank(keep, i);
    Shape(fs, m, i);
    if i == |fs| {
      assert st == ms && seen + {} == seen;
    } else {
      var rest := EncFields(fs, m, i + 1).value;
      if i in keep {
        PartOf(fs, keep, i);
        PartOf(m, keep, i);
        SlotDecodes(ws, ms, p, st, seen, rest);
        var now := if Emits(ws[p], ms[p]) then {p} else {};
        NextFilled(ws, ms, p, st);
        assert Rank(keep, i + 1) == p + 1;
        PartDecodes(fs, m, keep, i + 1, st[p := ms[p]], seen + now);
        assert seen + now + SeenFrom(ws, ms, p + 1) == seen + (now + SeenFrom(ws, ms, p + 1));
      } else {
        NotKept(fs, keep, i);
        SlotSkipped(ws, st, seen, fs[i], m[i], rest);
        PartDecodes(fs, m, keep, i + 1, st, seen);
      }
    }
  }

  // A reader without some of the writer's fields gets exactly the others.
  lemma OlderReader(fs: seq<Field>, m: seq<Slot>, keep: set<nat>)
    requires ValidFields(fs) && TypedMessage(fs, m)
    requires Encode(fs, m).Some? && |Encode(fs, m).value| < TWO32
    ensures var (ws, ms) := (Part(fs, keep), Part(m, keep));
            && ValidFields(ws) && TypedMessage(ws, ms)
            && Decode(ws, Encode(fs, m).value) == if TerminatedFrom(ws, ms, 0) then Some((ms, [])) else None
  {
    hide DecFields, EncFields, TerminatedFrom, AllSeen, SeenFrom, TypedMessage, ValidFields, Part;
    PartValid(fs, keep);
    PartTyped(fs, m, keep);
    var ws, ms := Part(fs, keep), Part(m, keep);
    PartDecodes(fs, m, keep, 0, Defaults(ws), {});
    AllRequiredSeen(ws, ms);
  }

  // ---- A reader that knows more fields ----

  // What a message without the other fields is to such a reader: they are at their defaults.
  function SlotFor(fs: seq<Field>, ms: seq<Slot>, keep: set<nat>, i: nat): Slot
    requires |ms| == Rank(keep, |fs|) && i < |fs|
  {
    KeptAt(fs, keep, i, |fs|);
    if i in keep then ms[Rank(keep, i)] else DefaultSlot(fs[i])
  }

  function Spread(fs: seq<Field>, ms: seq<Slot>, keep: set<nat>): (m: seq<Slot>)
    requires |ms| == Rank(keep, |fs|)
    ensures |m| == |fs|
  {
    seq(|fs|, i requires 0 <= i < |fs| => SlotFor(fs, ms, keep, i))
  }

  lemma SpreadTyped(fs: seq<Field>, ms: seq<Slot>, keep: set<nat>)
    requires ValidFields(fs) && TypedMessage(Part(fs, keep), ms)
    ensures |ms| == Rank(keep, |fs|) && TypedMessage(fs, Spread(fs, ms, keep))
  {
    hide TypedSlot, SameGroup, Kept, Rank, Part, ValidField;
    var ws, m := Part(fs, keep), Spread(fs, ms, keep);
    forall i | 0 <= i < |fs| ensures TypedSlot(fs[i], m[i]) {
      if i in keep {
        PartOf(fs, keep, i);
      } else {
        DefaultTyped(fs[i]);
      }
    }
    forall i, j | 0 <= i < j < |fs| && SameGroup(fs[i], fs[j]) && m[i].One? ensures m[j].Absent? {
      if i !in keep {
        NotByDefault(fs[i], fs[j]);
      } else if j !in keep {
        NotByDefault(fs[j], fs[i]);
      } else {
        PartOf(fs, keep, i);
        PartOf(fs, keep, j);
        KeptAt(fs, keep, i, j);
        RanksDiffer(keep, i, j);
      }
    }
  }

  lemma RanksDiffer(keep: set<nat>, i: nat, j: nat)
    requires i < j && i in keep
    ensures Rank(keep, i) < Rank(keep, j)
  {
    RankMonotone(keep, i + 1, j);
  }

  lemma DefaultTyped(f: Field)
    requires ValidField(f)
    ensures TypedSlot(f, DefaultSlot(f))
  {
    PbShape.DefaultSound(false, f);
    PbShape.SlotOfDefault(false, f);
  }

  lemma NotByDefault(f: Field, g: Field)
    requires SameGroup(f, g) || SameGroup(g, f)
    ensures DefaultSlot(f) == Absent
  {
  }

  // The fields sent from the i-th on.
  function SentFrom(fs: seq<Field>, m: seq<Slot>, keep: set<nat>, i: nat): set<nat>
    requires ValidFields(fs) && TypedMessage(fs, m) && i <= |fs|
    decreases |fs| - i
  {
    if i == |fs| then {} else (if i in keep && Emits(fs[i], m[i]) then {i} else {}) + SentFrom(fs, m, keep, i + 1)
  }

  lemma {:induction false} RequiredSent(fs: seq<Field>, m: seq<Slot>, keep: set<nat>, i: nat, j: nat)
    requires ValidFields(fs) && TypedMessage(fs, m) && i <= |fs| && j < |fs| && fs[j].htype.Required?
    ensures j in SentFrom(fs, m, keep, i) <==> i <= j && j in keep
    decreases |fs| - i
  {
    hide TypedMessage, ValidFields;
    if i < |fs| {
      RequiredSent(fs, m, keep, i + 1, j);
    }
  }

  // Every required field among the first 64 is known to the writer.
  ghost predicate RequiredKept(fs: seq<Field>, keep: set<nat>) {
    forall i :: 0 <= i < |fs| && fs[i].htype.Required? && RequiredBefore(fs, i) < 64 ==> i in keep
  }

  lemma AllSent(fs: seq<Field>, m: seq<Slot>, keep: set<nat>)
    requires ValidFields(fs) && TypedMessage(fs, m)
    ensures AllSeen(fs, {} + SentFrom(fs, m, keep, 0), |fs|) <==> RequiredKept(fs, keep)
  {
    hide TypedMessage, ValidFields, SentFrom, RequiredBefore, AllSeen;
    var sent := {} + SentFrom(fs, m, keep, 0);
    AllSeenIs(fs, sent, |fs|);
    forall j: nat | j < |fs| && fs[j].htype.Required? ensures j in sent <==> j in keep {
      RequiredSent(fs, m, keep, 0, j);
    }
  }

  // From the i-th field of the reader on, the writer being at the field of that rank.
  lemma {:induction false} SpreadDecodes(fs: seq<Field>, ms: seq<Slot>, keep: set<nat>, i: nat, st: seq<Slot>, seen: set<nat>)
    requires ValidFields(fs) && i <= |fs| && |ms| == Rank(keep, |fs|) && TypedMessage(fs, Spread(fs, ms, keep))
    requires ValidFields(Part(fs, keep)) && TypedMessage(Part(fs, keep), ms) && Rank(keep, i) <= |ms|
    requires EncFields(Part(fs, keep), ms, Rank(keep, i)).Some?
    requires |EncFields(Part(fs, keep), ms, Rank(keep, i)).value| < TWO32
    requires FilledTo(fs, Spread(fs, ms, keep), i, st)
    ensures var (ws, m, p) := (Part(fs, keep), Spread(fs, ms, keep), Rank(keep, i));
            DecFields(fs, st, seen, EncFields(ws, ms, p).value) ==
            if TerminatedFrom(ws, ms, p) then Some(Loop(m, seen + SentFrom(fs, m, keep, i), [], false)) else None
    decreases |fs| - i
  {
    hide EncSlot, TerminatedSlot, Emits, TypedMessage, ValidFields, DefaultSlot, Part, Spread, SlotFor;
    var ws, m, p := Part(fs, keep), Spread(fs, ms, keep), Rank(keep, i);
    if i == |fs| {
      assert st == m && seen + {} == seen;
    } else {
      SpreadAt(fs, ms, keep, i);
      if i in keep {
        PartOf(fs, keep, i);
        Shape(ws, ms, p);
        SlotDecodes(fs, m, i, st, seen, EncFields(ws, ms, p + 1).value);
        var now := if Emits(fs[i], m[i]) then {i} else {};
        NextFilled(fs, m, i, st);
        assert Rank(keep, i + 1) == p + 1;
        SpreadDecodes(fs, ms, keep, i + 1, st[i := m[i]], seen + now);
        assert seen + now + SentFrom(fs, m, keep, i + 1) == seen + (now + SentFrom(fs, m, keep, i + 1));
      } else {
        assert {} + SentFrom(fs, m, keep, i + 1) == SentFrom(fs, m, keep, i + 1);
        SpreadDecodes(fs, ms, keep, i + 1, st, seen);
      }
    }
  }

  lemma SpreadAt(fs: seq<Field>, ms: seq<Slot>, keep: set<nat>, i: nat)
    requires |ms| == Rank(keep, |fs|) && i < |fs|
    ensures i in keep ==> Rank(keep, i) < |ms| && Spread(fs, ms, keep)[i] == ms[Rank(keep, i)]
    ensures i !in keep ==> Spread(fs, ms, keep)[i] == DefaultSlot(fs[i])
  {
    hide DefaultSlot;
    KeptAt(fs, keep, i, |fs|);
  }

  // A reader with more fields than the writer gets the writer's message with those fields at
  // their defaults, exactly if none of them is required among the first 64.
  lemma NewerReader(fs: seq<Field>, ms: seq<Slot>, keep: set<nat>)
    requires ValidFields(fs) && ValidFields(Part(fs, keep)) && TypedMessage(Part(fs, keep), ms)
    requires Encode(Part(fs, keep), ms).Some? && |Encode(Part(fs, keep), ms).value| < TWO32
    ensures |ms| == Rank(keep, |fs|)
    ensures Decode(fs, Encode(Part(fs, keep), ms).value) ==
            if TerminatedFrom(Part(fs, keep), ms, 0) && RequiredKept(fs, keep) then Some((Spread(fs, ms, keep), [])) else None
  {
    hide DecFields, EncFields, TerminatedFrom, AllSeen, SentFrom, TypedMessage, ValidFields, Part, Spread, RequiredKept;
    SpreadTyped(fs, ms, keep);
    SpreadDecodes(fs, ms, keep, 0, Defaults(fs), {});
    AllSent(fs, Spread(fs, ms, keep), keep);
  }
}
