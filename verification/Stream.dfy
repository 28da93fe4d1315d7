// The decoder over a whole stream: frames, filler between them, and altered bytes.
module Stream {
  import opened Frame
  import opened Decoder
  import opened Codec
  import opened FrameFate
  import opened Link
  import opened Hearing
  import opened Framing
  import Ecc

  // ---- Traffic ----

  // The pieces of a received stream: filler, a false head, an intact frame, a frame with payload
  // byte k altered, one with header byte k altered so that it reads as the header of f', one
  // with byte k of its ECC and CRC bytes altered, one with tag byte k altered, and one with a
  // stop byte altered. A frame whose head is altered is a false head and whatever pieces the
  // rest of it makes.
  datatype Item =
    | Filler(bytes: seq<bv8>)
    | Head(bytes: seq<bv8>)
    | Intact(f: Fields, p: seq<bv8>)
    | Repairable(f: Fields, p: seq<bv8>, k: nat, v: bv8)
    | Misaddressed(f: Fields, f': Fields, p: seq<bv8>, k: nat, v: bv8)
    | BadCheck(f: Fields, p: seq<bv8>, k: nat, v: bv8)
    | BadTag(f: Fields, p: seq<bv8>, k: nat, v: bv8)
    | BadStop(f: Fields, p: seq<bv8>, k: nat, v: bv8)

  // A frame refused for its CRC is followed by its own tag, which must not hold a start byte.
  ghost predicate Possible(cfg: Config, own: bv8, item: Item) {
    match item
    case Filler(bytes) => Noise(bytes)
    case Head(bytes) => FalseHead(cfg, own, bytes)
    case Intact(f, p) => Addressed(cfg, own, f) && |p| <= MaxPayload(cfg)
    case Repairable(f, p, k, v) =>
      Addressed(cfg, own, f) && |p| <= Ecc.MAX_BLOCK && cfg.crc.Some? && cfg.ecc && k < |p| && v != p[k]
    case Misaddressed(f, f', p, k, v) =>
      && Addressed(cfg, own, f') && |p| <= MaxPayload(cfg) && cfg.crc.Some? && Noise(TagOf(cfg, f, p))
      && k < |Header(cfg, f, |p|)| && v != Header(cfg, f, |p|)[k]
      && Header(cfg, f', |p|) == Header(cfg, f, |p|)[k := v]
    case BadCheck(f, p, k, v) =>
      && Addressed(cfg, own, f) && |p| <= MaxPayload(cfg) && (cfg.ecc ==> |p| <= Ecc.MAX_BLOCK) && cfg.crc.Some?
      && Noise(TagOf(cfg, f, p))
      && k < |EccOf(cfg, p) + CrcOfFrame(cfg, f, p)| && v != (EccOf(cfg, p) + CrcOfFrame(cfg, f, p))[k]
    case BadTag(f, p, k, v) =>
      Addressed(cfg, own, f) && |p| <= MaxPayload(cfg) && k < |TagOf(cfg, f, p)| && v != TagOf(cfg, f, p)[k]
    case BadStop(f, p, k, v) =>
      Addressed(cfg, own, f) && |p| <= MaxPayload(cfg) && k < 2 && v != [STOP1, STOP2][k]
  }

  predicate Framed(item: Item) {
    !item.Filler? && !item.Head?
  }

  function Altered(w: seq<bv8>, k: nat, v: bv8): seq<bv8> {
    if k < |w| then w[k := v] else w
  }

  function OnWire(cfg: Config, item: Item): seq<bv8>
    requires Framed(item) ==> |item.p| <= MaxPayload(cfg)
  {
    match item
    case Filler(bytes) => bytes
    case Head(bytes) => bytes
    case Intact(f, p) => Wire(cfg, f, p)
    case Repairable(f, p, k, v) => Altered(Wire(cfg, f, p), PayloadAt(cfg, f, p) + k, v)
    case Misaddressed(f, _, p, k, v) => Altered(Wire(cfg, f, p), 2 + k, v)
    case BadCheck(f, p, k, v) => Altered(Wire(cfg, f, p), CheckAt(cfg, f, p) + k, v)
    case BadTag(f, p, k, v) => Altered(Wire(cfg, f, p), TagAt(cfg, f, p) + k, v)
    case BadStop(f, p, k, v) => Altered(Wire(cfg, f, p), StopAt(cfg, f, p) + k, v)
  }

  // ---- What becomes of it ----

  // The n-th of the bytes is answered with r; up to it the decoder is in a frame, after it
  // between frames.
  function Until(n: nat, r: Ret, total: nat): seq<Ret> {
    if 0 < n <= total then Progress(n - 1) + [r] + Idle(total - n) else []
  }

  function Answers(cfg: Config, item: Item): seq<Ret>
    requires Framed(item) ==> |item.p| <= MaxPayload(cfg)
  {
    var n := |OnWire(cfg, item)|;
    match item
    case Filler(_) => Idle(n)
    case Head(bytes) => Until(n, HeadAnswer(bytes), n)
    case Intact(_, _) => Until(n, Valid, n)
    case Repairable(_, _, _, _) => Until(n, Valid, n)
    case Misaddressed(f, _, p, _, _) => Until(TagAt(cfg, f, p), ErrCrc, n)
    case BadCheck(f, p, _, _) => Until(TagAt(cfg, f, p), ErrCrc, n)
    case BadTag(f, p, _, _) => Until(StopAt(cfg, f, p), ErrHmac, n)
    case BadStop(f, p, k, _) => Until(StopAt(cfg, f, p) + k + 1, ErrStop, n)
  }

  // Only whole and repaired frames arrive, and they arrive as they were sent.
  function Messages(cfg: Config, item: Item): seq<Message> {
    match item
    case Intact(f, p) => [Meant(cfg, f, p)]
    case Repairable(f, p, _, _) => [Meant(cfg, f, p)]
    case _ => []
  }

  // Only a wrong CRC is answered with a NACK.
  function NacksFor(cfg: Config, item: Item): seq<bv8> {
    match item
    case Misaddressed(_, f', _, _, _) => if cfg.arq then [SeqNumber(f'.seqByte)] else []
    case BadCheck(f, _, _, _) => if cfg.arq then [SeqNumber(f.seqByte)] else []
    case _ => []
  }

  // The decoder handles the bytes as the item says, and is ready for the next one.
  ghost predicate Handles(cfg: Config, own: bv8, s: State, bytes: seq<bv8>,
                          answers: seq<Ret>, messages: seq<Message>, nacks: seq<bv8>)
  {
    var (t, rs) := Run(cfg, own, s, bytes);
    t.phase == Start1 && t.nacks == s.nacks + nacks && rs == answers && Heard(cfg, own, s, bytes) == messages
  }

  lemma DeliversHandles(cfg: Config, own: bv8, s: State, bytes: seq<bv8>, msg: Message, repaired: bool)
    requires Delivers(cfg, own, s, bytes, msg, repaired)
    ensures Handles(cfg, own, s, bytes, Until(|bytes|, Valid, |bytes|), [msg], [])
  {
    hide Run, Heard, Received;
    var (t, rs) := Run(cfg, own, s, bytes);
    HeardAtEnd(cfg, own, s, bytes, t);
    assert rs == Until(|bytes|, Valid, |bytes|);
    assert s.nacks + [] == s.nacks;
  }

  // A frame that is given up early, with nothing after it that could start another one.
  lemma DropsHandles(cfg: Config, own: bv8, s: State, bytes: seq<bv8>, n: nat, t: State, r: Ret, nacks: seq<bv8>)
    requires Drops(cfg, own, s, bytes, n, t, r) && r != Valid && Noise(bytes[n..])
    requires t.phase == Start1 && t.nacks == s.nacks + nacks
    ensures Handles(cfg, own, s, bytes, Until(n, r, |bytes|), [], nacks)
  {
    hide Run, Heard, IsStart1;
    var head, rest := bytes[..n], bytes[n..];
    assert bytes == head + rest;
    RunAppend(cfg, own, s, head, rest);
    NoisePasses(cfg, own, t, rest);
    assert Run(cfg, own, s, head).1 == Progress(n - 1) + [r];
    EndsUnheard(cfg, own, s, head, t, r);
    NoiseUnheard(cfg, own, t, rest);
    HeardAppend(cfg, own, s, head, rest);
  }

  lemma ResetHandles(cfg: Config, own: bv8, s: State, bytes: seq<bv8>, n: nat, r: Ret)
    requires Drops(cfg, own, s, bytes, n, Reset(cfg, s), r) && r != Valid && Noise(bytes[n..])
    ensures Handles(cfg, own, s, bytes, Until(n, r, |bytes|), [], [])
  {
    hide Drops, Handles, Noise;
    assert s.nacks + [] == s.nacks;
    DropsHandles(cfg, own, s, bytes, n, Reset(cfg, s), r, []);
  }

  lemma RefusesHandles(cfg: Config, own: bv8, s: State, bytes: seq<bv8>, n: nat, f: Fields)
    requires Refuses(cfg, own, s, bytes, n, f) && Noise(bytes[n..])
    ensures Handles(cfg, own, s, bytes, Until(n, ErrCrc, |bytes|), [], if cfg.arq then [SeqNumber(f.seqByte)] else [])
  {
    hide Drops, Handles, Noise, SeqNumber, FreshCrc, Zeros;
    assert s.nacks + [] == s.nacks;
    DropsHandles(cfg, own, s, bytes, n, Rejected(cfg, s, f), ErrCrc, if cfg.arq then [SeqNumber(f.seqByte)] else []);
  }

  lemma FillerHandled(cfg: Config, own: bv8, s: State, bytes: seq<bv8>)
    requires s.phase == Start1 && Noise(bytes)
    ensures Handles(cfg, own, s, bytes, Idle(|bytes|), [], [])
  {
    hide Run, Heard, IsStart1;
    NoisePasses(cfg, own, s, bytes);
    NoiseUnheard(cfg, own, s, bytes);
    assert s.nacks + [] == s.nacks;
  }

  lemma HeadHandled(cfg: Config, own: bv8, s: State, bytes: seq<bv8>)
    requires s.phase == Start1 && FalseHead(cfg, own, bytes)
    ensures Handles(cfg, own, s, bytes, Until(|bytes|, HeadAnswer(bytes), |bytes|), [], [])
  {
    hide Run, Ends, Handles, FalseHead, Reset;
    FalseHeadEnds(cfg, own, s, bytes);
    assert bytes[..|bytes|] == bytes && bytes[|bytes|..] == [];
    ResetHandles(cfg, own, s, bytes, |bytes|, HeadAnswer(bytes));
  }

  // What follows the point at which a frame is refused: its tag, if any, and its stop bytes.
  lemma Leftover(cfg: Config, f: Fields, p: seq<bv8>, k: nat, v: bv8)
    requires |p| <= MaxPayload(cfg) && k < TagAt(cfg, f, p) && Noise(TagOf(cfg, f, p))
    ensures k < |Wire(cfg, f, p)| && TagAt(cfg, f, p) <= |Wire(cfg, f, p)|
    ensures Noise(Wire(cfg, f, p)[k := v][TagAt(cfg, f, p)..])
  {
    hide Wire, Header, EccOf, CrcOfFrame, TagOf;
    WireParts(cfg, f, p);
    var w, n := Wire(cfg, f, p), TagAt(cfg, f, p);
    assert w[k := v][n..] == TagOf(cfg, f, p) + [STOP1, STOP2];
  }

  lemma StopsLeft(cfg: Config, f: Fields, p: seq<bv8>, k: nat, v: bv8, n: nat)
    requires |p| <= MaxPayload(cfg) && k < |Wire(cfg, f, p)| && StopAt(cfg, f, p) <= n <= |Wire(cfg, f, p)| && k < n
    ensures Noise(Wire(cfg, f, p)[k := v][n..])
  {
    hide Wire, Header, EccOf, CrcOfFrame, TagOf;
    WireParts(cfg, f, p);
    hide Noise, StopAt;
    LastTwo(Wire(cfg, f, p), StopAt(cfg, f, p), k, v, n);
  }

  lemma LastTwo(w: seq<bv8>, i: nat, k: nat, v: bv8, n: nat)
    requires |w| == i + 2 && w[i] == STOP1 && w[i + 1] == STOP2 && k < n && i <= n <= |w|
    ensures Noise(w[k := v][n..])
  {
    var rest := w[k := v][n..];
    forall j | 0 <= j < |rest| ensures !IsStart1(rest[j]) {
      assert rest[j] == w[n + j];
    }
  }

  lemma ItemHandled(cfg: Config, own: bv8, s: State, item: Item)
    requires s.phase == Start1 && Possible(cfg, own, item) && (Framed(item) ==> |item.p| <= MaxPayload(cfg))
    ensures Handles(cfg, own, s, OnWire(cfg, item), Answers(cfg, item), Messages(cfg, item), NacksFor(cfg, item))
  {
    hide Handles, Delivers, Refuses, Drops, Wire, Header, EccOf, CrcOfFrame, TagOf, Meant, Addressed, SeqNumber, Reset, FalseHead,
      Idle, Progress, IsStart1, Noise, Until, PayloadAt, CheckAt, TagAt, StopAt, HeadAnswer;
    var w := OnWire(cfg, item);
    match item
    case Filler(bytes) =>
      FillerHandled(cfg, own, s, bytes);
    case Head(bytes) =>
      HeadHandled(cfg, own, s, bytes);
    case Intact(f, p) =>
      RoundTrip(cfg, own, s, f, p);
      DeliversHandles(cfg, own, s, w, Meant(cfg, f, p), false);
    case Repairable(f, p, k, v) =>
      PayloadByteAltered(cfg, own, s, f, p, k, v);
      DeliversHandles(cfg, own, s, w, Meant(cfg, f, p), true);
    case Misaddressed(f, f', p, k, v) =>
      MisaddressedHandled(cfg, own, s, f, f', p, k, v);
    case BadCheck(f, p, k, v) =>
      BadCheckHandled(cfg, own, s, f, p, k, v);
    case BadTag(f, p, k, v) =>
      BadTagHandled(cfg, own, s, f, p, k, v);
    case BadStop(f, p, k, v) =>
      BadStopHandled(cfg, own, s, f, p, k, v);
  }

  lemma MisaddressedHandled(cfg: Config, own: bv8, s: State, f: Fields, f': Fields, p: seq<bv8>, k: nat, v: bv8)
    requires s.phase == Start1 && |p| <= MaxPayload(cfg) && Possible(cfg, own, Misaddressed(f, f', p, k, v))
    ensures var item := Misaddressed(f, f', p, k, v);
            Handles(cfg, own, s, OnWire(cfg, item), Answers(cfg, item), [], NacksFor(cfg, item))
  {
    hide Handles, Refuses, Wire, EccOf, CrcOfFrame, TagOf, Addressed, SeqNumber, Until, Noise, Header;
    HeaderByteAltered(cfg, own, s, f, f', p, k, v);
    Leftover(cfg, f, p, 2 + k, v);
    RefusesHandles(cfg, own, s, Wire(cfg, f, p)[2 + k := v], TagAt(cfg, f, p), f');
  }

  lemma BadCheckHandled(cfg: Config, own: bv8, s: State, f: Fields, p: seq<bv8>, k: nat, v: bv8)
    requires s.phase == Start1 && |p| <= MaxPayload(cfg) && Possible(cfg, own, BadCheck(f, p, k, v))
    ensures var item := BadCheck(f, p, k, v);
            Handles(cfg, own, s, OnWire(cfg, item), Answers(cfg, item), [], NacksFor(cfg, item))
  {
    hide Handles, Refuses, Wire, EccOf, CrcOfFrame, TagOf, Addressed, SeqNumber, Until, Noise, Header;
    var n := |EccOf(cfg, p)|;
    if k < n {
      EccByteAltered(cfg, own, s, f, p, k, v);
    } else {
      CrcByteAltered(cfg, own, s, f, p, k - n, v);
    }
    Leftover(cfg, f, p, CheckAt(cfg, f, p) + k, v);
    RefusesHandles(cfg, own, s, Wire(cfg, f, p)[CheckAt(cfg, f, p) + k := v], TagAt(cfg, f, p), f);
  }

  lemma BadTagHandled(cfg: Config, own: bv8, s: State, f: Fields, p: seq<bv8>, k: nat, v: bv8)
    requires s.phase == Start1 && |p| <= MaxPayload(cfg) && Possible(cfg, own, BadTag(f, p, k, v))
    ensures var item := BadTag(f, p, k, v); Handles(cfg, own, s, OnWire(cfg, item), Answers(cfg, item), [], [])
  {
    hide Handles, Ends, Wire, EccOf, CrcOfFrame, TagOf, Addressed, Until, Noise, Header, Reset;
    TagByteAltered(cfg, own, s, f, p, k, v);
    StopsLeft(cfg, f, p, TagAt(cfg, f, p) + k, v, StopAt(cfg, f, p));
    ResetHandles(cfg, own, s, Wire(cfg, f, p)[TagAt(cfg, f, p) + k := v], StopAt(cfg, f, p), ErrHmac);
  }

  lemma BadStopHandled(cfg: Config, own: bv8, s: State, f: Fields, p: seq<bv8>, k: nat, v: bv8)
    requires s.phase == Start1 && |p| <= MaxPayload(cfg) && Possible(cfg, own, BadStop(f, p, k, v))
    ensures var item := BadStop(f, p, k, v); Handles(cfg, own, s, OnWire(cfg, item), Answers(cfg, item), [], [])
  {
    hide Handles, Ends, Wire, EccOf, CrcOfFrame, TagOf, Addressed, Until, Noise, Header, Reset;
    var n := StopAt(cfg, f, p) + k;
    StopByteAltered(cfg, own, s, f, p, k, v);
    StopsLeft(cfg, f, p, n, v, n + 1);
    ResetHandles(cfg, own, s, Wire(cfg, f, p)[n := v], n + 1, ErrStop);
  }

  // ---- Whole streams ----

  ghost predicate AllPossible(cfg: Config, own: bv8, items: seq<Item>) {
    forall i :: 0 <= i < |items| ==> Possible(cfg, own, items[i]) && (Framed(items[i]) ==> |items[i].p| <= MaxPayload(cfg))
  }

  ghost function AllOnWire(cfg: Config, own: bv8, items: seq<Item>): seq<bv8>
    requires AllPossible(cfg, own, items)
  {
    if |items| == 0 then [] else OnWire(cfg, items[0]) + AllOnWire(cfg, own, items[1..])
  }

  ghost function AllAnswers(cfg: Config, own: bv8, items: seq<Item>): seq<Ret>
    requires AllPossible(cfg, own, items)
  {
    if |items| == 0 then [] else Answers(cfg, items[0]) + AllAnswers(cfg, own, items[1..])
  }

  function AllMessages(cfg: Config, items: seq<Item>): seq<Message> {
    if |items| == 0 then [] else Messages(cfg, items[0]) + AllMessages(cfg, items[1..])
  }

  function AllNacks(cfg: Config, items: seq<Item>): seq<bv8> {
    if |items| == 0 then [] else NacksFor(cfg, items[0]) + AllNacks(cfg, items[1..])
  }

  lemma HandlesBoth(cfg: Config, own: bv8, s: State, a: seq<bv8>, b: seq<bv8>, r1: seq<Ret>, r2: seq<Ret>,
                    m1: seq<Message>, m2: seq<Message>, n1: seq<bv8>, n2: seq<bv8>)
    requires Handles(cfg, own, s, a, r1, m1, n1) && Handles(cfg, own, Run(cfg, own, s, a).0, b, r2, m2, n2)
    ensures Handles(cfg, own, s, a + b, r1 + r2, m1 + m2, n1 + n2)
  {
    hide Run, Heard;
    RunAppend(cfg, own, s, a, b);
    HeardAppend(cfg, own, s, a, b);
    assert s.nacks + n1 + n2 == s.nacks + (n1 + n2);
  }

  // Any stream of filler, false heads, intact frames and frames with one altered byte is decoded
  // to exactly the messages of the intact and the repaired frames, in order, with the expected
  // answer to every byte.
  lemma {:induction false} StreamDecodes(cfg: Config, own: bv8, s: State, items: seq<Item>)
    requires s.phase == Start1 && AllPossible(cfg, own, items)
    ensures Handles(cfg, own, s, AllOnWire(cfg, own, items), AllAnswers(cfg, own, items), AllMessages(cfg, items), AllNacks(cfg, items))
    decreases |items|
  {
    hide Run, Heard, OnWire, Answers, Messages, NacksFor, Possible;
    if |items| == 0 {
      NoBytes(cfg, own, s);
    } else {
      var item, rest := items[0], items[1..];
      var w := OnWire(cfg, item);
      ItemHandled(cfg, own, s, item);
      var t := Run(cfg, own, s, w).0;
      StreamDecodes(cfg, own, t, rest);
      HandlesBoth(cfg, own, s, w, AllOnWire(cfg, own, rest), Answers(cfg, item), AllAnswers(cfg, own, rest),
                  Messages(cfg, item), AllMessages(cfg, rest), NacksFor(cfg, item), AllNacks(cfg, rest));
    }
  }

  lemma NoBytes(cfg: Config, own: bv8, s: State)
    requires s.phase == Start1
    ensures Handles(cfg, own, s, [], [], [], [])
  {
    assert s.nacks + [] == s.nacks;
  }
}
