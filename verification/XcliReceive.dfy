// The peer's side of a fragmented response: it reads the count and the index from each frame's
// header and joins the payloads once none is missing.
module XcliReceive {
  import opened Octets
  import opened XcliSerial
  import opened XcliFragments

  // The payloads by index; frames without a whole header are ignored.
  function Gathered(arrived: seq<seq<byte>>): map<byte, seq<byte>> {
    if |arrived| == 0 then map[] else
    var before, f := Gathered(arrived[..|arrived| - 1]), arrived[|arrived| - 1];
    if |f| < 6 then before else before[f[5] := f[6..]]
  }

  predicate AllIn(m: map<byte, seq<byte>>, n: nat) {
    forall i :: 0 <= i < n ==> i in m
  }

  function Joined(m: map<byte, seq<byte>>, n: nat): seq<byte>
    requires AllIn(m, n)
  {
    if n == 0 then [] else Joined(m, n - 1) + m[n - 1]
  }

  // The count is the one in the first frame that arrived.
  predicate Complete(arrived: seq<seq<byte>>) {
    |arrived| > 0 && |arrived[0]| >= 6 && AllIn(Gathered(arrived), arrived[0][4])
  }

  // The frames of one response, as the sender describes them.
  ghost predicate Response(frames: seq<seq<byte>>, cmd: byte, seqNo: byte, status: byte, fs: seq<Field>) {
    && Small(fs)
    && var groups := Fragments(fs);
       && 0 < |groups| == |frames| <= 17
       && forall i :: 0 <= i < |groups| ==>
            && |frames[i]| >= 6
            && frames[i][..6] == [1, cmd, seqNo, status, |groups|, i]
            && frames[i][6..] == Serialised(groups[i])
  }

  lemma {:induction false} GatheredIs(frames: seq<seq<byte>>, payloads: seq<seq<byte>>, arrived: seq<seq<byte>>)
    requires |payloads| == |frames| <= 17
    requires forall i :: 0 <= i < |frames| ==> |frames[i]| >= 6 && frames[i][5] == i && frames[i][6..] == payloads[i]
    requires forall a :: a in arrived ==> a in frames
    ensures forall i :: 0 <= i < |frames| ==> (i in Gathered(arrived) <==> frames[i] in arrived)
    ensures forall i :: 0 <= i < |frames| && i in Gathered(arrived) ==> Gathered(arrived)[i] == payloads[i]
    decreases |arrived|
  {
    if |arrived| > 0 {
      var n := |arrived| - 1;
      var before, f := arrived[..n], arrived[n];
      GatheredIs(frames, payloads, before);
      assert f in frames;
      var k :| 0 <= k < |frames| && frames[k] == f;
      assert Gathered(arrived) == Gathered(before)[k := payloads[k]];
      assert arrived == before + [f];
    }
  }

  // Joining what was gathered joins the groups of fields.
  lemma {:induction false} JoinedIs(m: map<byte, seq<byte>>, groups: seq<seq<Field>>, n: nat)
    requires AllIn(m, n) && n <= |groups| && forall i :: 0 <= i < n ==> m[i] == Serialised(groups[i])
    ensures Joined(m, n) == Serialised(Concat(groups[..n]))
    decreases n
  {
    hide Serialised;
    if n == 0 {
      NoFields();
      assert groups[..0] == [];
    } else {
      JoinedIs(m, groups, n - 1);
      assert groups[..n] == groups[..n - 1] + [groups[n - 1]];
      ConcatSnoc(groups[..n - 1], groups[n - 1]);
      SerialisedAppend(Concat(groups[..n - 1]), groups[n - 1]);
    }
  }

  lemma {:induction false} ConcatSnoc(groups: seq<seq<Field>>, g: seq<Field>)
    ensures Concat(groups + [g]) == Concat(groups) + g
    decreases |groups|
  {
    if |groups| == 0 {
      assert groups + [g] == [g] && [g][1..] == [];
      assert Concat([]) == [];
    } else {
      assert (groups + [g])[1..] == groups[1..] + [g];
      ConcatSnoc(groups[1..], g);
    }
  }

  // Whatever frames of a response arrive, in any order and any number of times: the receiver has
  // all of it exactly when no frame is missing, and then it has the fields that were sent.
  lemma AnyOrder(frames: seq<seq<byte>>, cmd: byte, seqNo: byte, status: byte, fs: seq<Field>, arrived: seq<seq<byte>>)
    requires Response(frames, cmd, seqNo, status, fs)
    requires forall a :: a in arrived ==> a in frames
    ensures Complete(arrived) <==> forall f :: f in frames ==> f in arrived
    ensures Complete(arrived) ==>
              && Joined(Gathered(arrived), arrived[0][4]) == Serialised(fs)
              && ParseAll(Serialised(fs)) == (SeenAll(fs), false)
  {
    hide Serialised, WireOf, Greedy, Longest, Fragments, Gathered, ParseAll;
    var groups := Fragments(fs);
    var payloads := seq(|groups|, i requires 0 <= i < |groups| => Serialised(groups[i]));
    forall i | 0 <= i < |frames| ensures frames[i][4] == |groups| && frames[i][5] == i && frames[i][6..] == payloads[i] {
      assert frames[i][4] == frames[i][..6][4] && frames[i][5] == frames[i][..6][5];
    }
    GatheredIs(frames, payloads, arrived);
    if Complete(arrived) {
      assert arrived[0] in frames;
      JoinedIs(Gathered(arrived), groups, |groups|);
      assert groups[..|groups|] == groups;
      FragmentsSplit(fs);
      AllReadBack(fs);
    }
    if forall f :: f in frames ==> f in arrived {
      assert frames[0] in frames;
      assert arrived[0] in frames;
    }
  }
}
