// The CRC context of a frame: either CRC, fed a byte at a time.
module Crc {
  import Words = Bytes
  import Crc16
  import Crc32

  datatype Kind = Kind16 | Kind32

  datatype State = C16(v16: bv16) | C32(v32: bv32)

  function Init(k: Kind): State {
    match k
    case Kind16 => C16(0)
    case Kind32 => C32(0xFFFF_FFFF)
  }

  function Update(c: State, b: bv8): State {
    match c
    case C16(v) => C16(Crc16.Step(v, b))
    case C32(v) => C32(Crc32.Step(v, b))
  }

  function UpdateAll(c: State, s: seq<bv8>): State
    decreases |s|
  {
    if |s| == 0 then c else UpdateAll(Update(c, s[0]), s[1..])
  }

  // The bytes sent for a register, least significant first.
  function Bytes(c: State): seq<bv8> {
    match c
    case C16(v) => [Words.Low16(v), Words.High16(v)]
    case C32(v) => Words.Bytes32(Final32(v))
  }

  function Final32(v: bv32): bv32 {
    v ^ 0xFFFF_FFFF
  }

  function Size(k: Kind): nat {
    if k.Kind16? then 2 else 4
  }

  class Context {
    var current: State

    constructor (k: Kind)
      ensures current == Init(k)
    {
      current := Init(k);
    }

    method Restart(k: Kind)
      modifies this
      ensures current == Init(k)
    {
      current := Init(k);
    }

    // useTable is the compile-time choice of the fast form.
    method Feed(data: bv8, useTable: bool)
      modifies this
      ensures current == Update(old(current), data)
    {
      hide Crc16.Step, Crc16.TableStep, Crc32.Step, Crc32.TableStep;
      match current
      case C16(v) =>
        if useTable {
          Crc16.TableStepIsStep(v, data);
          current := C16(Crc16.TableStep(v, data));
        } else {
          var r := Crc16.BitSerial(v, data);
          current := C16(r);
        }
      case C32(v) =>
        if useTable {
          Crc32.TableStepIsStep(v, data);
          current := C32(Crc32.TableStep(v, data));
        } else {
          var r := Crc32.BitSerial(v, data);
          current := C32(r);
        }
    }
  }

  lemma UpdateInjective(c: State, d: State, a: bv8, b: bv8)
    requires c.C16? == d.C16? && Update(c, a) == Update(d, b)
    ensures c == d <==> a == b
  {
    hide Crc16.Step, Crc32.Step;
    match c
    case C16(v) => Crc16.StepInjective(v, d.v16, a, b);
    case C32(v) => Crc32.StepInjective(v, d.v32, a, b);
  }

  lemma {:induction false} UpdateAllKeepsKind(c: State, s: seq<bv8>)
    ensures UpdateAll(c, s).C16? == c.C16?
    decreases |s|
  {
    hide Crc16.Step, Crc32.Step;
    if |s| != 0 {
      UpdateAllKeepsKind(Update(c, s[0]), s[1..]);
    }
  }

  // Once two registers differ, equal input never brings them together again.
  lemma {:induction false} NeverMerge(c: State, d: State, s: seq<bv8>)
    requires c.C16? == d.C16? && c != d
    ensures UpdateAll(c, s) != UpdateAll(d, s)
    decreases |s|
  {
    hide Crc16.Step, Crc32.Step;
    if |s| != 0 {
      if Update(c, s[0]) == Update(d, s[0]) {
        UpdateInjective(c, d, s[0], s[0]);
      }
      NeverMerge(Update(c, s[0]), Update(d, s[0]), s[1..]);
    }
  }

  lemma {:induction false} UpdateAllAppend(c: State, s: seq<bv8>, t: seq<bv8>)
    ensures UpdateAll(c, s + t) == UpdateAll(UpdateAll(c, s), t)
    decreases |s|
  {
    hide Update;
    if |s| == 0 {
      assert s + t == t;
    } else {
      assert (s + t)[1..] == s[1..] + t;
      UpdateAllAppend(Update(c, s[0]), s[1..], t);
    }
  }

  lemma UpdateAllCons(c: State, b: bv8, s: seq<bv8>)
    ensures UpdateAll(c, [b] + s) == UpdateAll(Update(c, b), s)
  {
    assert ([b] + s)[1..] == s;
  }

  lemma UpdateAllNone(c: State)
    ensures UpdateAll(c, []) == c
  {
  }

  lemma UpdateAllSnoc(c: State, s: seq<bv8>, b: bv8)
    ensures UpdateAll(c, s + [b]) == Update(UpdateAll(c, s), b)
  {
    hide Update;
    UpdateAllAppend(c, s, [b]);
    UpdateAllCons(UpdateAll(c, s), b, []);
  }

  // A change that the register notices when it has passed it is never forgotten.
  lemma Detects(c: State, pre: seq<bv8>, x: seq<bv8>, y: seq<bv8>, post: seq<bv8>)
    requires var m := UpdateAll(c, pre); UpdateAll(m, x) != UpdateAll(m, y)
    ensures Bytes(UpdateAll(c, pre + (x + post))) != Bytes(UpdateAll(c, pre + (y + post)))
  {
    hide Update, UpdateAll, Bytes;
    var m := UpdateAll(c, pre);
    var u, v := UpdateAll(m, x), UpdateAll(m, y);
    UpdateAllAppend(c, pre, x + post);
    UpdateAllAppend(c, pre, y + post);
    UpdateAllAppend(m, x, post);
    UpdateAllAppend(m, y, post);
    UpdateAllKeepsKind(m, x);
    UpdateAllKeepsKind(m, y);
    NeverMerge(u, v, post);
    if Bytes(UpdateAll(u, post)) == Bytes(UpdateAll(v, post)) {
      BytesInjective(UpdateAll(u, post), UpdateAll(v, post));
    }
  }

  // A change confined to one byte of a message always changes its CRC.
  lemma DetectsOneByte(c: State, s: seq<bv8>, k: nat, v: bv8)
    requires k < |s| && s[k] != v
    ensures Bytes(UpdateAll(c, s)) != Bytes(UpdateAll(c, s[k := v]))
  {
    hide Update, Bytes;
    var pre, post := s[..k], s[k + 1..];
    var m := UpdateAll(c, pre);
    UpdateAllCons(m, s[k], []);
    UpdateAllCons(m, v, []);
    if Update(m, s[k]) == Update(m, v) {
      UpdateInjective(m, m, s[k], v);
    }
    hide UpdateAll;
    assert s == pre + ([s[k]] + post) && s[k := v] == pre + ([v] + post);
    UpdateAllNone(Update(m, s[k]));
    UpdateAllNone(Update(m, v));
    Detects(c, pre, [s[k]], [v], post);
  }

  // So does a change confined to two neighbouring bytes.
  lemma DetectsTwoNeighbours(c: State, s: seq<bv8>, k: nat, a: bv8, b: bv8)
    requires k + 1 < |s| && (s[k] != a || s[k + 1] != b)
    ensures Bytes(UpdateAll(c, s)) != Bytes(UpdateAll(c, s[k := a][k + 1 := b]))
  {
    hide Update, UpdateAll, Bytes;
    var pre, post, t := s[..k], s[k + 2..], s[k := a][k + 1 := b];
    var m := UpdateAll(c, pre);
    assert s == pre + ([s[k], s[k + 1]] + post) && t == pre + ([a, b] + post);
    TwoBytes(m, s[k], s[k + 1]);
    TwoBytes(m, a, b);
    TwoUpdates(m, s[k], s[k + 1], a, b);
    Detects(c, pre, [s[k], s[k + 1]], [a, b], post);
  }

  lemma TwoBytes(c: State, a: bv8, b: bv8)
    ensures UpdateAll(c, [a, b]) == Update(Update(c, a), b)
  {
    hide Update;
    UpdateAllCons(c, a, [b]);
    UpdateAllCons(Update(c, a), b, []);
    assert [a] + [b] == [a, b] && [b] + [] == [b];
  }

  lemma TwoUpdates(c: State, a: bv8, b: bv8, a': bv8, b': bv8)
    ensures Update(Update(c, a), b) == Update(Update(c, a'), b') ==> a == a' && b == b'
  {
    hide Crc16.Step, Crc32.Step;
    if Update(Update(c, a), b) == Update(Update(c, a'), b') {
      match c
      case C16(v) => Crc16.TwoSteps(v, a, b, a', b');
      case C32(v) => Crc32.TwoSteps(v, a, b, a', b');
    }
  }

  // But in any message of five bytes or more some change in the first five goes unnoticed.
  lemma Unnoticed(c: State, s: seq<bv8>) returns (t: seq<bv8>)
    requires |s| >= 5
    ensures |t| == |s| && t != s && UpdateAll(c, t) == UpdateAll(c, s)
  {
    hide UpdateAll;
    match c
    case C16(v) =>
      t := [s[0] ^ 0x01, s[1] ^ 0x10, s[2] ^ 0x21] + s[3..];
      Altered(s[0]);
      hide Crc16.Step;
      Crc16.PolynomialUnnoticed(v, s[0], s[1], s[2]);
      ThreeBytes(c, s[0], s[1], s[2], s[3..]);
      ThreeBytes(c, s[0] ^ 0x01, s[1] ^ 0x10, s[2] ^ 0x21, s[3..]);
      assert s == [s[0], s[1], s[2]] + s[3..] && t[0] != s[0];
    case C32(v) =>
      t := [s[0] ^ 0x01, s[1] ^ 0x04, s[2] ^ 0xC1] + ([s[3] ^ 0x1D, s[4] ^ 0xB7] + s[5..]);
      Altered(s[0]);
      hide Crc32.Step;
      Crc32.PolynomialUnnoticed(v, s[0], s[1], s[2], s[3], s[4]);
      FiveBytes(c, s[0], s[1], s[2], s[3], s[4], s[5..]);
      FiveBytes(c, s[0] ^ 0x01, s[1] ^ 0x04, s[2] ^ 0xC1, s[3] ^ 0x1D, s[4] ^ 0xB7, s[5..]);
      assert s == [s[0], s[1], s[2]] + ([s[3], s[4]] + s[5..]) && t[0] != s[0];
  }

  lemma Altered(b: bv8)
    ensures b ^ 0x01 != b
  {
  }

  lemma ThreeBytes(c: State, a: bv8, b: bv8, d: bv8, rest: seq<bv8>)
    ensures UpdateAll(c, [a, b, d] + rest) == UpdateAll(Update(Update(Update(c, a), b), d), rest)
  {
    hide Update, UpdateAll;
    var x := Update(Update(c, a), b);
    assert [a, b, d] + rest == [a, b] + ([d] + rest);
    UpdateAllAppend(c, [a, b], [d] + rest);
    TwoBytes(c, a, b);
    UpdateAllCons(x, d, rest);
  }

  lemma FiveBytes(c: State, a: bv8, b: bv8, d: bv8, e: bv8, g: bv8, rest: seq<bv8>)
    ensures UpdateAll(c, [a, b, d] + ([e, g] + rest)) ==
            UpdateAll(Update(Update(Update(Update(Update(c, a), b), d), e), g), rest)
  {
    hide Update, UpdateAll;
    var x := Update(Update(Update(c, a), b), d);
    ThreeBytes(c, a, b, d, [e, g] + rest);
    UpdateAllAppend(x, [e, g], rest);
    TwoBytes(x, e, g);
  }

  lemma BytesInjective(c: State, d: State)
    requires Bytes(c) == Bytes(d)
    ensures c == d
  {
    hide Words.Low16, Words.High16, Words.Bytes32, Final32;
    var x, y := Bytes(c), Bytes(d);
    assert |x| == |y| && x[0] == y[0] && x[1] == y[1];
    match c
    case C16(v) => Word16(v, d.v16);
    case C32(v) =>
      Word32(Final32(v), Final32(d.v32));
      Complement(v, d.v32);
  }

  lemma Word16(v: bv16, w: bv16)
    requires Words.Low16(v) == Words.Low16(w) && Words.High16(v) == Words.High16(w)
    ensures v == w
  {
  }

  lemma Word32(v: bv32, w: bv32)
    requires Words.Bytes32(v) == Words.Bytes32(w)
    ensures v == w
  {
    var x, y := Words.Bytes32(v), Words.Bytes32(w);
    assert x[0] == y[0] && x[1] == y[1] && x[2] == y[2] && x[3] == y[3];
  }

  lemma Complement(v: bv32, w: bv32)
    requires Final32(v) == Final32(w)
    ensures v == w
  {
  }
}
