// Segmentation: large payloads as numbered chunks, reassembled in one stream slot.
module Seg {
  const MAX_CHUNKS: nat := 128
  const BUF_SIZE: nat := 128 * 255
  const TIMEOUT_MS: bv32 := 3000

  // A chunk as it reaches the other side; total 0 marks streaming mode.
  datatype Chunk = Chunk(src: bv8, sid: bv8, idx: nat, total: nat, payload: seq<bv8>)

  // The reassembly slot; buf holds the bytes received so far.
  datatype Slot = Slot(active: bool, src: bv8, sid: bv8, streaming: bool, next: nat, buf: seq<bv8>, lastMs: bv32)

  // ---- Chunking ----

  // The two possible frame capacities.
  predicate ChunkSize(m: nat) {
    m == 255 || m == 5120
  }

  function Pieces(data: seq<bv8>, m: nat): seq<seq<bv8>>
    requires m > 0
  {
    if |data| == 0 then [] else if |data| <= m then [data] else [data[..m]] + Pieces(data[m..], m)
  }

  function Join(ps: seq<seq<bv8>>): seq<bv8> {
    if |ps| == 0 then [] else ps[0] + Join(ps[1..])
  }

  // The number of chunks as the sender computes it, in 32-bit arithmetic.
  function ChunkCount(n: nat, m: nat): nat
    requires m > 0
  {
    (n + m - 1) % 0x1_0000_0000 / m
  }

  function ChunksOf(data: seq<bv8>, m: nat, src: bv8, sid: bv8): (cs: seq<Chunk>)
    requires m > 0
    ensures |cs| == |Pieces(data, m)|
  {
    var ps := Pieces(data, m);
    seq(|ps|, i requires 0 <= i < |ps| => Chunk(src, sid, i, |ps|, ps[i]))
  }

  lemma {:induction false} PiecesCount(data: seq<bv8>, m: nat)
    requires ChunkSize(m)
    ensures |Pieces(data, m)| == (|data| + m - 1) / m
    decreases |data|
  {
    if |data| > m {
      PiecesCount(data[m..], m);
    }
  }

  lemma {:induction false} PiecesJoin(data: seq<bv8>, m: nat)
    requires m > 0
    ensures Join(Pieces(data, m)) == data
    ensures forall p :: p in Pieces(data, m) ==> 0 < |p| <= m
    decreases |data|
  {
    if |data| > m {
      PiecesJoin(data[m..], m);
      var rest := Pieces(data[m..], m);
      assert ([data[..m]] + rest)[1..] == rest;
      assert data[..m] + data[m..] == data;
    } else if |data| > 0 {
      assert [data][1..] == [];
      assert data + [] == data;
    }
  }

  lemma {:induction false} JoinAppend(a: seq<seq<bv8>>, b: seq<seq<bv8>>)
    ensures Join(a + b) == Join(a) + Join(b)
    decreases |a|
  {
    if |a| == 0 {
      assert a + b == b;
    } else {
      assert (a + b)[1..] == a[1..] + b;
      JoinAppend(a[1..], b);
    }
  }

  lemma JoinSnoc(ps: seq<seq<bv8>>, k: nat)
    requires k < |ps|
    ensures Join(ps[..k + 1]) == Join(ps[..k]) + ps[k]
  {
    assert ps[..k + 1] == ps[..k] + [ps[k]];
    JoinAppend(ps[..k], [ps[k]]);
    assert [ps[k]][1..] == [];
    assert ps[k] + [] == ps[k];
  }

  lemma JoinPrefix(ps: seq<seq<bv8>>, k: nat)
    requires k <= |ps|
    ensures Join(ps[..k]) <= Join(ps)
  {
    assert ps == ps[..k] + ps[k..];
    JoinAppend(ps[..k], ps[k..]);
  }

  // A transfer is accepted exactly when it is not empty and fits 128 chunks, also where
  // the 32-bit sum wraps around.
  predicate Accepted(n: nat, m: nat)
    requires m > 0
  {
    n > 0 && 0 < ChunkCount(n, m) <= MAX_CHUNKS
  }

  lemma AcceptedExactly(n: nat, m: nat)
    requires ChunkSize(m) && n < 0x1_0000_0000
    ensures Accepted(n, m) <==> 0 < n <= 128 * m
    ensures Accepted(n, m) ==> ChunkCount(n, m) == (n + m - 1) / m
  {
    if n + m - 1 >= 0x1_0000_0000 {
      assert (n + m - 1) % 0x1_0000_0000 == n + m - 1 - 0x1_0000_0000;
    }
  }

  datatype SendResult = SegOk | SegErr | SegErrMem

  class Sender {
    const chunkSize: nat
    const src: bv8
    var streamId: bv8
    var sent: seq<Chunk>

    constructor (chunkSize: nat, src: bv8)
      ensures this.chunkSize == chunkSize && this.src == src && streamId == 0 && sent == []
    {
      this.chunkSize, this.src, streamId, sent := chunkSize, src, 0, [];
    }

    // acked says which of the chunk sends succeed; the first that fails ends the transfer.
    method Send(data: array<bv8>, acked: seq<bool>) returns (r: SendResult)
      requires ChunkSize(chunkSize) && data.Length < 0x1_0000_0000 && |acked| >= MAX_CHUNKS
      modifies this`streamId, this`sent
      ensures !Accepted(data.Length, chunkSize) ==>
                sent == old(sent) && streamId == old(streamId) && r == if data.Length == 0 then SegErr else SegErrMem
      ensures Accepted(data.Length, chunkSize) ==>
                streamId == old(streamId) + 1 &&
                SentAsFarAs(old(sent), sent, ChunksOf(data[..], chunkSize, src, old(streamId)), acked, r)
    {
      if data.Length == 0 {
        return SegErr;
      }
      var total := ChunkCount(data.Length, chunkSize);
      if total > MAX_CHUNKS || total == 0 {
        return SegErrMem;
      }
      AcceptedExactly(data.Length, chunkSize);
      PiecesCount(data[..], chunkSize);
      var sid := streamId;
      streamId := streamId + 1;
      r := SendChunks(data, acked, total, sid);
    }

    method SendChunks(data: array<bv8>, acked: seq<bool>, total: nat, sid: bv8) returns (r: SendResult)
      requires chunkSize > 0 && total == |Pieces(data[..], chunkSize)| <= |acked|
      modifies this`sent
      ensures SentAsFarAs(old(sent), sent, ChunksOf(data[..], chunkSize, src, sid), acked, r)
    {
      hide Pieces;
      ghost var ps, cs := Pieces(data[..], chunkSize), ChunksOf(data[..], chunkSize, src, sid);
      var pos, remaining, i := 0, data.Length, 0;
      assert data[..][0..] == data[..] && ps[0..] == ps;
      while i < total
        invariant 0 <= i <= total == |ps| && 0 <= pos <= data.Length && remaining == data.Length - pos
        invariant ps[i..] == Pieces(data[..][pos..], chunkSize)
        invariant sent == old(sent) + cs[..i] && forall j :: 0 <= j < i ==> acked[j]
      {
        PiecesStep(data[..], chunkSize, ps, i, pos);
        var len := if remaining > chunkSize then chunkSize else remaining;
        assert data[pos..pos + len] == data[..][pos..pos + len];
        sent := sent + [Chunk(src, sid, i, total, data[pos..pos + len])];
        assert cs[..i + 1] == cs[..i] + [cs[i]];
        assert old(sent) + cs[..i] + [cs[i]] == old(sent) + cs[..i + 1];
        if !acked[i] {
          return SegErr;
        }
        pos := pos + len;
        remaining := remaining - len;
        i := i + 1;
      }
      assert cs[..total] == cs;
      return SegOk;
    }
  }

  // Either every chunk was sent and acknowledged, or all chunks up to the first that was not.
  ghost predicate SentAsFarAs(before: seq<Chunk>, after: seq<Chunk>, cs: seq<Chunk>, acked: seq<bool>, r: SendResult)
  {
    && |cs| <= |acked|
    && (r == SegOk ==> after == before + cs && forall i :: 0 <= i < |cs| ==> acked[i])
    && (r != SegOk ==> r == SegErr && exists k :: 0 <= k < |cs| && !acked[k] && (forall i :: 0 <= i < k ==> acked[i])
                                                  && after == before + cs[..k + 1])
  }

  // The next piece is cut where the last one ended.
  lemma PiecesStep(data: seq<bv8>, m: nat, ps: seq<seq<bv8>>, i: nat, pos: nat)
    requires m > 0 && i <= |ps| && pos <= |data|
    ensures i < |ps| && ps[i..] == Pieces(data[pos..], m) ==>
              var n := if |data| - pos > m then m else |data| - pos;
              ps[i] == data[pos..pos + n] && ps[i + 1..] == Pieces(data[pos + n..], m)
  {
    var rest := data[pos..];
    if i < |ps| && ps[i..] == Pieces(rest, m) {
      assert ps[i..][0] == ps[i] && ps[i..][1..] == ps[i + 1..];
      if |rest| > m {
        assert rest[m..] == data[pos + m..];
        assert ([rest[..m]] + Pieces(rest[m..], m))[1..] == Pieces(rest[m..], m);
      } else {
        assert data[|data|..] == [];
        assert ps[i..] == [rest] && |ps[i + 1..]| == 0;
      }
    }
  }
}
