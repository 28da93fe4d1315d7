// What the application hears of the bytes that reach the decoder.
module Hearing {
  import opened Frame
  import opened Decoder
  import opened Codec
  import opened FrameFate

  function Heard(cfg: Config, own: bv8, s: State, bytes: seq<bv8>): seq<Message>
    decreases |bytes|
  {
    if |bytes| == 0 then [] else
    var (t, r) := Step(cfg, own, s, bytes[0]);
    (if r == Valid then [Received(t)] else []) + Heard(cfg, own, t, bytes[1..])
  }

  lemma {:induction false} HeardAppend(cfg: Config, own: bv8, s: State, a: seq<bv8>, b: seq<bv8>)
    ensures Heard(cfg, own, s, a + b) == Heard(cfg, own, s, a) + Heard(cfg, own, Run(cfg, own, s, a).0, b)
    decreases |a|
  {
    hide Step, Received;
    if |a| == 0 {
      assert a + b == b;
    } else {
      assert (a + b)[1..] == a[1..] + b;
      var t := Step(cfg, own, s, a[0]).0;
      HeardAppend(cfg, own, t, a[1..], b);
    }
  }

  lemma {:induction false} NothingHeard(cfg: Config, own: bv8, s: State, bytes: seq<bv8>)
    requires Valid !in Run(cfg, own, s, bytes).1
    ensures Heard(cfg, own, s, bytes) == []
    decreases |bytes|
  {
    hide Step, Received;
    if |bytes| != 0 {
      var (t, r) := Step(cfg, own, s, bytes[0]);
      assert Run(cfg, own, s, bytes).1 == [r] + Run(cfg, own, t, bytes[1..]).1;
      assert Run(cfg, own, s, bytes).1[0] == r;
      NothingHeard(cfg, own, t, bytes[1..]);
    }
  }

  lemma {:induction false} HeardAtEnd(cfg: Config, own: bv8, s: State, bytes: seq<bv8>, t: State)
    requires Ends(cfg, own, s, bytes, t, Valid)
    ensures Heard(cfg, own, s, bytes) == [Received(t)]
    decreases |bytes|
  {
    hide Step, Received;
    var (u, r) := Step(cfg, own, s, bytes[0]);
    var rs := Run(cfg, own, s, bytes).1;
    assert rs == [r] + Run(cfg, own, u, bytes[1..]).1;
    assert rs[0] == r;
    if |bytes| == 1 {
      assert Run(cfg, own, u, bytes[1..]) == (u, []);
      assert Heard(cfg, own, u, bytes[1..]) == [];
    } else {
      assert forall i :: 0 <= i < |bytes| - 1 ==> Run(cfg, own, u, bytes[1..]).1[i] == rs[i + 1];
      HeardAtEnd(cfg, own, u, bytes[1..], t);
    }
  }

  // Bytes that end without VALID deliver nothing.
  lemma EndsUnheard(cfg: Config, own: bv8, s: State, bytes: seq<bv8>, t: State, r: Ret)
    requires Ends(cfg, own, s, bytes, t, r) && r != Valid
    ensures Heard(cfg, own, s, bytes) == [] && Run(cfg, own, s, bytes).0 == t
  {
    hide Run, Heard;
    NothingHeard(cfg, own, s, bytes);
  }
}
