// The remote-shell messages: the descriptor lists the program uses.
module PbGosh {
  import opened Octets
  import opened Wrappers
  import opened PbWire
  import opened PbTypes
  import opened PbFormat
  import opened PbShape
  import PbReencode
  import PbRoundTrip

  function Int(tag: nat, size: nat, h: HType): Field {
    Field(tag, Varint, h, size, 0, [], Num(0))
  }

  function UInt32(tag: nat, h: HType): Field {
    Field(tag, UVarint, h, 4, 0, [], Num(0))
  }

  function Text(tag: nat, size: nat, h: HType): Field {
    Field(tag, String, h, size, 0, [], Blob([]))
  }

  function Nested(tag: nat, sub: seq<Field>, h: HType, arraySize: nat): Field {
    Field(tag, Submessage, h, 0, arraySize, sub, Msg([]))
  }

  const TIME_STAMP: seq<Field> := [Int(1, 8, Required), Int(2, 4, Required)]
  const RUN_COMMAND: seq<Field> := [Text(1, 128, Required), Nested(2, TIME_STAMP, Optional, 0)]
  const RUN_SCRIPT_COMMAND: seq<Field> :=
    [Text(1, 128, Optional), UInt32(2, Optional), UInt32(3, Optional), Nested(4, TIME_STAMP, Optional, 0)]
  const LIST_JOBS_COMMAND: seq<Field> := []
  const STOP_COMMAND: seq<Field> := [Nested(1, TIME_STAMP, Optional, 0)]
  const SHELL_COMMAND: seq<Field> := [UInt32(1, Optional), UInt32(2, Optional)]
  const KEEP_ALIVE: seq<Field> := [Nested(1, TIME_STAMP, Optional, 0)]
  const RESULT_TUPLE: seq<Field> := [Text(1, 32, Optional), Text(2, 32, Required), Text(3, 128, Required)]
  const COMMAND_RESPONSE: seq<Field> :=
    [Nested(1, RESULT_TUPLE, Repeated, 4), Int(2, 4, Required), Int(3, 1, Required), Text(10, 256, Optional)]
  const REQUEST: seq<Field> :=
    [UInt32(1, Required),
     Nested(10, RUN_COMMAND, Oneof(0), 0), Nested(11, RUN_SCRIPT_COMMAND, Oneof(0), 0),
     Nested(12, LIST_JOBS_COMMAND, Oneof(0), 0), Nested(13, STOP_COMMAND, Oneof(0), 0),
     Nested(14, SHELL_COMMAND, Oneof(0), 0), Nested(15, KEEP_ALIVE, Oneof(0), 0)]
  const RESPONSE: seq<Field> :=
    [UInt32(1, Required), Nested(10, COMMAND_RESPONSE, Oneof(0), 0), Nested(20, KEEP_ALIVE, Oneof(0), 0)]

  lemma SmallValid()
    ensures ValidFields(TIME_STAMP) && ValidFields(LIST_JOBS_COMMAND) && ValidFields(SHELL_COMMAND) && ValidFields(RESULT_TUPLE)
  {
  }

  lemma CommandsValid()
    ensures ValidFields(RUN_COMMAND) && ValidFields(RUN_SCRIPT_COMMAND) && ValidFields(STOP_COMMAND) && ValidFields(KEEP_ALIVE)
    ensures ValidFields(COMMAND_RESPONSE)
  {
    SmallValid();
  }

  lemma MessagesValid()
    ensures ValidFields(REQUEST) && ValidFields(RESPONSE)
  {
    SmallValid();
    CommandsValid();
  }

  // ---- Requests byte by byte ----

  // A request with nothing but its identifier.
  function Bare(id: nat): seq<Slot> {
    [One(Num(id)), Absent, Absent, Absent, Absent, Absent, Absent]
  }

  lemma BareTyped(id: nat)
    requires id < TWO32
    ensures ValidFields(REQUEST) && TypedMessage(REQUEST, Bare(id))
  {
    MessagesValid();
  }

  // Field 1, wire type 0, so the first byte is 0x08.
  lemma BareBytes(id: nat)
    requires id < TWO32
    ensures ValidFields(REQUEST) && TypedMessage(REQUEST, Bare(id))
    ensures Encode(REQUEST, Bare(id)) == Some([0x08] + EncVarint(id))
  {
    BareTyped(id);
    var m := Bare(id);
    var f := REQUEST[0];
    assert ValidField(f) && TypedSlot(f, m[0]);
    assert EncTag(f, WireType(f.ltype)) == [0x08];
    hide EncVarint, ValidFields, TypedMessage, ValidField;
    assert EncValue(f, Num(id)) == Some(EncVarint(id));
    assert EncTagged(f, Num(id)) == Some([0x08] + EncVarint(id));
    hide EncTagged;
    assert EncSlot(f, m[0]) == Some([0x08] + EncVarint(id));
    hide EncSlot;
    NothingMore(REQUEST, m, 1);
    assert [0x08] + EncVarint(id) + [] == [0x08] + EncVarint(id);
  }

  lemma FirstRequest()
    ensures ValidFields(REQUEST) && TypedMessage(REQUEST, Bare(1)) && Encode(REQUEST, Bare(1)) == Some([0x08, 0x01])
  {
    assert [0x08] + EncVarint(1) == [0x08, 0x01];
    hide EncVarint, Encode, ValidFields, TypedMessage, Bare;
    BareBytes(1);
  }

  lemma {:induction false} NothingMore(fs: seq<Field>, m: seq<Slot>, i: nat)
    requires ValidFields(fs) && TypedMessage(fs, m) && i <= |fs| && forall j :: i <= j < |fs| ==> m[j] == Absent
    ensures EncFields(fs, m, i) == Some([])
    decreases |fs| - i
  {
    hide ValidFields, TypedMessage;
    Shape(fs, m, i);
    if i < |fs| {
      NothingMore(fs, m, i + 1);
      AbsentIsNothing(fs[i]);
      assert [] + [] == EncFields(fs, m, i + 1).value;
    }
  }

  lemma AbsentIsNothing(f: Field)
    requires ValidField(f) && TypedSlot(f, Absent)
    ensures EncSlot(f, Absent) == Some([])
  {
    hide ValidField;
  }

  // A request survives serialising and deserialising exactly if its command, script and
  // similar strings end before their buffers do.
  lemma RequestRoundTrip(m: seq<Slot>)
    requires ValidFields(REQUEST) && TypedMessage(REQUEST, m)
    requires Encode(REQUEST, m).Some? && |Encode(REQUEST, m).value| < TWO32
    ensures Decode(REQUEST, Encode(REQUEST, m).value) == Some((m, [])) <==> PbRoundTrip.TerminatedFrom(REQUEST, m, 0)
  {
    hide *;
    PbRoundTrip.MessageRoundTrip(REQUEST, m);
  }

  lemma SmallFit()
    ensures DefaultsFit(TIME_STAMP) && DefaultsFit(LIST_JOBS_COMMAND) && DefaultsFit(SHELL_COMMAND) && DefaultsFit(RESULT_TUPLE)
  {
  }

  lemma CommandsFit()
    ensures DefaultsFit(RUN_COMMAND) && DefaultsFit(RUN_SCRIPT_COMMAND) && DefaultsFit(STOP_COMMAND) && DefaultsFit(KEEP_ALIVE)
    ensures DefaultsFit(COMMAND_RESPONSE)
  {
    SmallFit();
  }

  lemma MessagesFit()
    ensures DefaultsFit(REQUEST) && DefaultsFit(RESPONSE)
  {
    SmallFit();
    CommandsFit();
  }

  // Whatever bytes a request is deserialised from, it fits its structure and can be serialised
  // and deserialised again to the same request.
  lemma ReceivedRequest(s: seq<byte>)
    requires Decode(REQUEST, s).Some?
    ensures var m := Decode(REQUEST, s).value.0;
            && ValidFields(REQUEST) && TypedMessage(REQUEST, m) && Fits(REQUEST, m) && Encode(REQUEST, m).Some?
            && (|Encode(REQUEST, m).value| < TWO32 ==> Decode(REQUEST, Encode(REQUEST, m).value) == Some((m, [])))
  {
    MessagesValid();
    MessagesFit();
    hide *;
    PbReencode.DecodedSurvives(REQUEST, s);
  }
}
