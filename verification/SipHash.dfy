// The frame tag: SipHash-2-4 (Aumasson and Bernstein, section 2), truncated to 32 bits.
module SipHash {
  import Bytes

  datatype V = V(v0: bv64, v1: bv64, v2: bv64, v3: bv64)

  const KEY: seq<bv8> := [0x2B, 0x7E, 0x15, 0x16, 0x28, 0xAE, 0xD2, 0xA6, 0xAB, 0xF7, 0x15, 0x88, 0x09, 0xCF, 0x4F, 0x3C]

  // ---- The hash of a whole message ----

  function Rotl(x: bv64, b: bv8): bv64
    requires 0 < b < 64
  {
    (x << b) | (x >> (64 - b))
  }

  function Round(v: V): V {
    var a0 := v.v0 + v.v1;
    var a1 := Rotl(v.v1, 13) ^ a0;
    var a0' := Rotl(a0, 32);
    var a2 := v.v2 + v.v3;
    var a3 := Rotl(v.v3, 16) ^ a2;
    var c0 := a0' + a3;
    var c3 := Rotl(a3, 21) ^ c0;
    var c2 := a2 + a1;
    var c1 := Rotl(a1, 17) ^ c2;
    V(c0, c1, Rotl(c2, 32), c3)
  }

  function Compress(v: V, m: bv64): V {
    var w := Round(Round(v.(v3 := v.v3 ^ m)));
    w.(v0 := w.v0 ^ m)
  }

  // Byte i of a little-endian word, in place.
  function Place(b: bv8, i: nat): bv64
    requires i < 8
  {
    if i == 0 then b as bv64 else if i == 1 then (b as bv64) << 8 else if i == 2 then (b as bv64) << 16 else
    if i == 3 then (b as bv64) << 24 else if i == 4 then (b as bv64) << 32 else if i == 5 then (b as bv64) << 40 else
    if i == 6 then (b as bv64) << 48 else (b as bv64) << 56
  }

  function Or(x: bv64, y: bv64): bv64 {
    x | y
  }

  // Up to eight bytes as a little-endian word; missing bytes are zero.
  function Word(s: seq<bv8>): bv64
    requires |s| <= 8
  {
    if |s| == 0 then 0 else Or(Word(s[..|s| - 1]), Place(s[|s| - 1], |s| - 1))
  }

  // The initial state for the two words of a key.
  function Keyed(k0: bv64, k1: bv64): V {
    V(k0 ^ 0x736f6d6570736575, k1 ^ 0x646f72616e646f6d, k0 ^ 0x6c7967656e657261, k1 ^ 0x7465646279746573)
  }

  function Start(): V {
    Keyed(Word(KEY[..8]), Word(KEY[8..]))
  }

  // The state after the first n eight-byte blocks of s.
  function Blocks(s: seq<bv8>, n: nat): V
    requires 8 * n <= |s|
  {
    if n == 0 then Start() else Compress(Blocks(s, n - 1), Word(s[8 * n - 8..8 * n]))
  }

  // The bytes after the last whole block.
  function Tail(s: seq<bv8>): (t: seq<bv8>)
    ensures |t| == |s| % 8
  {
    s[|s| - |s| % 8..]
  }

  function WithLength(m: bv64, length: bv8): bv64 {
    m | ((length as bv64) << 56)
  }

  function Finish(v: V): bv64 {
    var w := Round(Round(Round(Round(v.(v2 := v.v2 ^ 0xFF)))));
    w.v0 ^ w.v1 ^ w.v2 ^ w.v3
  }

  function Hash(s: seq<bv8>): bv64 {
    Finish(Compress(Blocks(s, |s| / 8), WithLength(Word(Tail(s)), Bytes.LowByte(|s|))))
  }

  function Low32(h: bv64): bv32 {
    (h & 0xFFFF_FFFF) as bv32
  }

  function Tag(s: seq<bv8>): bv32 {
    Low32(Hash(s))
  }

  // ---- The incremental context ----

  class Context {
    var v: V
    var pending: bv64
    var pendingLen: nat
    var totalLen: nat
    ghost var fed: seq<bv8>

    ghost predicate Valid()
      reads this
    {
      && v == Blocks(fed, |fed| / 8)
      && pending == Word(Tail(fed))
      && pendingLen == |fed| % 8
      && totalLen == |fed| % 0x1_0000_0000
    }

    constructor ()
      ensures Valid() && fed == []
    {
      hide Start, Word, Blocks, Tail;
      Nothing();
      v, pending, pendingLen, totalLen, fed := Start(), 0, 0, 0, [];
    }

    method Push(b: bv8)
      requires Valid()
      modifies this
      ensures Valid() && fed == old(fed) + [b]
    {
      hide Start, Compress, Word, Place, Or, Blocks, Tail;
      ghost var n := |fed|;
      DivSnoc(n);
      WordSnoc(Tail(fed), b);
      TailSnoc(fed, b);
      CountSnoc(n);
      pending := Or(pending, Place(b, pendingLen));
      pendingLen := pendingLen + 1;
      totalLen := (totalLen + 1) % 0x1_0000_0000;
      if pendingLen == 8 {
        BlockSnoc(fed, b);
        Nothing();
        v := Compress(v, pending);
        pending := 0;
        pendingLen := 0;
      }
      fed := fed + [b];
      assert |fed| == n + 1;
    }

    method Update(data: seq<bv8>)
      requires Valid()
      modifies this
      ensures Valid() && fed == old(fed) + data
    {
      hide Valid;
      var i := 0;
      while i < |data|
        invariant 0 <= i <= |data|
        invariant Valid() && fed == old(fed) + data[..i]
      {
        Push(data[i]);
        i := i + 1;
      }
    }

    method Finish64() returns (r: bv64)
      requires Valid()
      modifies this`v
      ensures r == Hash(fed)
    {
      hide Start, Compress, Word, Finish, WithLength, Bytes.LowByte;
      LowByteOfLength(|fed|);
      v := Compress(v, WithLength(pending, Bytes.LowByte(totalLen)));
      r := Finish(v);
    }
  }

  lemma LowByteOfLength(n: nat)
    ensures Bytes.LowByte(n % 0x1_0000_0000) == Bytes.LowByte(n)
  {
    hide Bytes.ToByte;
    assert (n % 0x1_0000_0000) % 256 == n % 256;
  }

  lemma Nothing()
    ensures Blocks([], 0) == Start() && Word(Tail([])) == 0
  {
    hide Start;
    assert Tail([]) == [];
  }

  // One more byte lands above the ones already pending.
  lemma WordSnoc(s: seq<bv8>, b: bv8)
    requires |s| < 8
    ensures Word(s + [b]) == Or(Word(s), Place(b, |s|))
  {
    hide Or, Place;
    assert (s + [b])[..|s|] == s;
  }

  lemma CountSnoc(n: nat)
    ensures (n % 0x1_0000_0000 + 1) % 0x1_0000_0000 == (n + 1) % 0x1_0000_0000
  {
  }

  lemma DivSnoc(k: nat)
    ensures k % 8 == 7 ==> (k + 1) / 8 == k / 8 + 1 && (k + 1) % 8 == 0
    ensures k % 8 != 7 ==> (k + 1) / 8 == k / 8 && (k + 1) % 8 == k % 8 + 1
    ensures k - k % 8 == 8 * (k / 8)
  {
  }

  lemma TailAt(s: seq<bv8>, q: nat)
    requires 8 * q <= |s| < 8 * q + 8
    ensures |s| / 8 == q && Tail(s) == s[8 * q..]
  {
  }

  // One more byte either extends the tail...
  lemma TailSnoc(s: seq<bv8>, b: bv8)
    ensures |s| % 8 != 7 ==> Tail(s + [b]) == Tail(s) + [b] && Blocks(s + [b], (|s| + 1) / 8) == Blocks(s, |s| / 8)
  {
    hide *;
    var q := |s| / 8;
    DivSnoc(|s|);
    TailAt(s, q);
    if |s| % 8 != 7 {
      TailAt(s + [b], q);
      assert (s + [b])[8 * q..] == s[8 * q..] + [b];
      BlocksPrefix(s, s + [b], q);
    }
  }

  // ... or completes a block.
  lemma BlockSnoc(s: seq<bv8>, b: bv8)
    requires |s| % 8 == 7
    ensures Tail(s + [b]) == []
    ensures Blocks(s + [b], (|s| + 1) / 8) == Compress(Blocks(s, |s| / 8), Word(Tail(s) + [b]))
  {
    hide Start, Compress, Word, Tail;
    var t, q := s + [b], |s| / 8;
    DivSnoc(|s|);
    TailAt(s, q);
    TailAt(t, q + 1);
    BlocksPrefix(s, t, q);
    assert t[8 * (q + 1) - 8..8 * (q + 1)] == s[8 * q..] + [b];
  }

  lemma {:induction false} BlocksPrefix(s: seq<bv8>, t: seq<bv8>, n: nat)
    requires 8 * n <= |s| && s <= t
    ensures Blocks(t, n) == Blocks(s, n)
  {
    hide Start, Compress, Word;
    if n != 0 {
      BlocksPrefix(s, t, n - 1);
      assert t[8 * n - 8..8 * n] == s[8 * n - 8..8 * n];
    }
  }

  // The tag of three pieces fed one after another is the tag of the whole message.
  method Compute(hdr: seq<bv8>, data: seq<bv8>, check: seq<bv8>) returns (tag: bv32)
    ensures tag == Tag(hdr + data + check)
  {
    hide Hash, Low32, Context.Valid;
    var ctx := new Context();
    if |hdr| > 0 {
      ctx.Update(hdr);
    }
    if |data| > 0 {
      ctx.Update(data);
    }
    if |check| > 0 {
      ctx.Update(check);
    }
    assert ctx.fed == hdr + data + check;
    var tag64 := ctx.Finish64();
    tag := Low32(tag64);
  }
}
