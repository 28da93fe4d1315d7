// Named fields of the remote command line: serialiser and deserialiser.
module XcliSerial {
  import opened Octets
  import opened Wrappers

  const MAX_NAME: nat := 16
  const MAX_DATA: nat := 64

  datatype Field = Field(name: seq<byte>, kind: byte, data: seq<byte>)

  // What the wire format can carry.
  predicate Sendable(f: Field) {
    |f.name| <= 255 && |WireOf(f)| <= 0xFFFF
  }

  // Name length, name, type, data length, data.
  function WireOf(f: Field): (w: seq<byte>)
    ensures |w| == 4 + |f.name| + |f.data|
  {
    [|f.name| % 256] + f.name + [f.kind, |f.data| % 256, |f.data| / 256 % 256] + f.data
  }

  ghost predicate AllSendable(fs: seq<Field>) {
    forall i :: 0 <= i < |fs| ==> Sendable(fs[i])
  }

  function Serialised(fs: seq<Field>): seq<byte> {
    if |fs| == 0 then [] else WireOf(fs[0]) + Serialised(fs[1..])
  }

  lemma {:induction false} SerialisedAppend(a: seq<Field>, b: seq<Field>)
    ensures Serialised(a + b) == Serialised(a) + Serialised(b)
    decreases |a|
  {
    if |a| == 0 {
      assert a + b == b;
    } else {
      assert (a + b)[1..] == a[1..] + b;
      SerialisedAppend(a[1..], b);
    }
  }

  lemma SerialisedOne(f: Field)
    ensures Serialised([f]) == WireOf(f)
  {
    assert [f][1..] == [];
    assert WireOf(f) + [] == WireOf(f);
  }

  lemma WireParts(f: Field, before: seq<byte>)
    requires Sendable(f)
    ensures before + [|f.name|] + f.name + [f.kind, |f.data| % 256, |f.data| / 256] + f.data == before + WireOf(f)
  {
  }

  class Serialiser {
    const buf: array<byte>
    const cap: nat
    var pos: nat
    var error: bool
    ghost var fields: seq<Field>  // those put so far

    ghost predicate Valid()
      reads this, buf
    {
      cap <= buf.Length && pos <= cap && buf[..pos] == Serialised(fields)
    }

    constructor (buf: array<byte>, cap: nat)
      requires cap <= buf.Length && cap <= 0xFFFF
      ensures Valid() && this.buf == buf && this.cap == cap && fields == [] && !error
    {
      this.buf, this.cap := buf, cap;
      pos, error, fields := 0, false, [];
    }

    // A field that does not fit sets the error flag, and from then on nothing is put.
    method PutField(f: Field)
      requires Valid() && Sendable(f)
      modifies this, buf
      ensures Valid() && error == (old(error) || cap - old(pos) < |WireOf(f)|)
      ensures fields == if error then old(fields) else old(fields) + [f]
    {
      if error {
        return;
      }
      if cap - pos < 4 + |f.name| + |f.data| {
        error := true;
        return;
      }
      hide Serialised;
      SerialisedAppend(fields, [f]);
      SerialisedOne(f);
      ghost var before := buf[..pos];
      var length := [f.kind, |f.data| % 256, |f.data| / 256];
      Append([|f.name|], before);
      Append(f.name, before + [|f.name|]);
      Append(length, before + [|f.name|] + f.name);
      Append(f.data, before + [|f.name|] + f.name + length);
      WireParts(f, before);
      fields := fields + [f];
    }

    method Append(b: seq<byte>, ghost before: seq<byte>)
      requires pos + |b| <= cap <= buf.Length && buf[..pos] == before
      modifies this`pos, buf
      ensures pos == old(pos) + |b| && buf[..pos] == before + b
    {
      var i := 0;
      while i < |b|
        invariant 0 <= i <= |b| && buf[..pos] == before && buf[pos..pos + i] == b[..i]
        modifies buf
      {
        buf[pos + i] := b[i];
        i := i + 1;
      }
      assert buf[..pos + |b|] == buf[..pos] + buf[pos..pos + |b|];
      assert b[..|b|] == b;
      pos := pos + |b|;
    }

    // The size, or 0 after an overflow.
    method Finish() returns (n: nat)
      requires Valid()
      ensures n == if error then 0 else |Serialised(fields)|
    {
      return if error then 0 else pos;
    }
  }

  // ---- Deserialiser ----

  // A field as the receiver holds it: names and data longer than its buffers are cut, shorter
  // data is padded with zeros.
  datatype Received = Received(name: seq<byte>, kind: byte, dataLen: nat, data: seq<byte>)

  function Cut(s: seq<byte>, n: nat): seq<byte> {
    if |s| <= n then s else s[..n]
  }

  function Padded(s: seq<byte>): (r: seq<byte>)
    requires |s| <= MAX_DATA
    ensures |r| == MAX_DATA
  {
    s + seq(MAX_DATA - |s|, i => 0)
  }

  function Seen(f: Field): Received {
    Received(Cut(f.name, MAX_NAME), f.kind, |f.data|, Padded(Cut(f.data, MAX_DATA)))
  }

  function Word(low: byte, high: byte): nat {
    low as int + 256 * (high as int)
  }

  lemma SubSlice(s: seq<byte>, p: nat, i: nat, j: nat)
    requires p + j <= |s| && i <= j
    ensures s[p..][i..j] == s[p + i..p + j]
    ensures s[p..][j..] == s[p + j..]
  {
  }

  // The next field of the bytes, and the rest.
  function Parse(s: seq<byte>): (r: Option<(Field, seq<byte>)>)
    ensures r.Some? ==> |r.value.1| < |s|
  {
    if |s| == 0 then None else
    var n: nat := s[0];
    if |s| < n + 4 then None else
    var d := Word(s[n + 2], s[n + 3]);
    if |s| < n + 4 + d then None else
    Some((Field(s[1..n + 1], s[n + 1], s[n + 4..n + 4 + d]), s[n + 4 + d..]))
  }

  // The three ways to read from a position before the end: cut short before the data length, cut
  // short in the data, or a whole field.
  lemma ParseAt(buf: seq<byte>, p: nat)
    requires p < |buf|
    ensures var n := buf[p];
            && (|buf| - p < n + 4 ==> Parse(buf[p..]).None?)
            && (|buf| - p >= n + 4 ==>
                  var d := Word(buf[p + n + 2], buf[p + n + 3]);
                  Parse(buf[p..]) ==
                  if |buf| - p < n + 4 + d then None
                  else Some((Field(buf[p + 1..p + n + 1], buf[p + n + 1], buf[p + n + 4..p + n + 4 + d]), buf[p + n + 4 + d..])))
  {
    hide Word;
    var s: seq<byte>, n: nat := buf[p..], buf[p];
    if |s| >= n + 4 {
      var d := Word(s[n + 2], s[n + 3]);
      SubSlice(buf, p, 1, n + 1);
      if |s| >= n + 4 + d {
        SubSlice(buf, p, n + 4, n + 4 + d);
      }
    }
  }

  class Deserialiser {
    const buf: seq<byte>
    var pos: nat
    var error: bool

    ghost predicate Valid()
      reads this
    {
      pos <= |buf|
    }

    constructor (buf: seq<byte>)
      ensures Valid() && this.buf == buf && pos == 0 && !error
    {
      this.buf, pos, error := buf, 0, false;
    }

    // On any bytes: either a field is returned and the position has moved past it, or the end
    // is reached, or the error flag is set and stays set.
    method Next() returns (r: Option<Received>)
      requires Valid()
      modifies this
      ensures Valid()
      ensures var p := Parse(old(buf[pos..]));
              if old(error) then r.None? && error
              else if old(pos) == |buf| then r.None? && !error && pos == |buf|
              else if p.None? then r.None? && error
              else r == Some(Seen(p.value.0)) && !error && buf[pos..] == p.value.1 && pos > old(pos)
    {
      if error || pos >= |buf| {
        return None;
      }
      hide Cut, Padded, Word, Parse;
      ParseAt(buf, pos);
      var nameLen: nat := buf[pos];
      pos := pos + 1;
      if |buf| - pos < nameLen {
        error := true;
        return None;
      }
      var name := Cut(buf[pos..pos + nameLen], MAX_NAME);
      pos := pos + nameLen;
      if |buf| - pos < 1 {
        error := true;
        return None;
      }
      var kind := buf[pos];
      pos := pos + 1;
      if |buf| - pos < 2 {
        error := true;
        return None;
      }
      var dataLen := Word(buf[pos], buf[pos + 1]);
      pos := pos + 2;
      if |buf| - pos < dataLen {
        error := true;
        return None;
      }
      var data := Padded(Cut(buf[pos..pos + dataLen], MAX_DATA));
      pos := pos + dataLen;
      return Some(Received(name, kind, dataLen, data));
    }

    // The caller's read loop: it ends on every input.
    method ReadAll() returns (all: seq<Received>)
      requires Valid()
      modifies this
      ensures Valid() && (old(error) ==> all == [])
      ensures !old(error) ==> (all, error) == ParseAll(old(buf[pos..]))
    {
      all := [];
      var more := true;
      assert !error ==> all + ParseAll(buf[pos..]).0 == ParseAll(buf[pos..]).0;
      while more
        invariant Valid() && (old(error) ==> error && all == [])
        invariant !old(error) ==>
                    if more then !error && ParseAll(old(buf[pos..])) == (all + ParseAll(buf[pos..]).0, ParseAll(buf[pos..]).1)
                    else ParseAll(old(buf[pos..])) == (all, error)
        decreases more, |buf| - pos
      {
        ghost var was := buf[pos..];
        var r := Next();
        if r.Some? {
          assert all + ParseAll(was).0 == all + [r.value] + ParseAll(buf[pos..]).0;
          all := all + [r.value];
        } else {
          assert all + [] == all;
          more := false;
        }
      }
    }
  }

  // All fields, and whether the bytes end in the middle of one.
  function ParseAll(s: seq<byte>): (seq<Received>, bool)
    decreases |s|
  {
    if |s| == 0 then ([], false) else
    var p := Parse(s);
    if p.None? then ([], true) else
    var (rest, bad) := ParseAll(p.value.1);
    ([Seen(p.value.0)] + rest, bad)
  }

  lemma ParseWire(f: Field, rest: seq<byte>)
    requires Sendable(f)
    ensures Parse(WireOf(f) + rest) == Some((f, rest))
  {
    var n, d := |f.name|, |f.data|;
    var s := WireOf(f) + rest;
    assert s[0] == n && s[1..n + 1] == f.name && s[n + 1] == f.kind;
    assert s[n + 2] == d % 256 && s[n + 3] == d / 256;
    assert s[n + 4..n + 4 + d] == f.data && s[n + 4 + d..] == rest;
  }

  // Every list of fields is read back, cut to the receiver's buffers, without error.
  lemma {:induction false} AllReadBack(fs: seq<Field>)
    requires AllSendable(fs)
    ensures ParseAll(Serialised(fs)) == (SeenAll(fs), false)
    decreases |fs|
  {
    hide Parse, Seen, WireOf;
    if |fs| > 0 {
      ParseWire(fs[0], Serialised(fs[1..]));
      AllReadBack(fs[1..]);
      assert |WireOf(fs[0])| >= 4;
    }
  }

  function SeenAll(fs: seq<Field>): seq<Received> {
    if |fs| == 0 then [] else [Seen(fs[0])] + SeenAll(fs[1..])
  }

  // What the receiver keeps of a field: sixteen bytes of the name, sixty-four of the data.
  lemma SeenExactly(f: Field)
    ensures var r := Seen(f);
            && r.kind == f.kind && r.dataLen == |f.data|
            && r.name == (if |f.name| <= 16 then f.name else f.name[..16])
            && |r.data| == 64
            && forall k :: 0 <= k < 64 ==> r.data[k] == if k < |f.data| then f.data[k] else 0
  {
  }

  // It can tell two fields apart exactly as well as the sender could if the names have at most
  // 16 bytes and the data at most 64.
  lemma SmallFieldsKept(f: Field, g: Field)
    requires |f.name| <= 16 && |f.data| <= 64 && |g.name| <= 16 && |g.data| <= 64
    ensures Seen(f) == Seen(g) <==> f == g
  {
    if Seen(f) == Seen(g) {
      assert f.data == Padded(f.data)[..|f.data|] && g.data == Padded(g.data)[..|g.data|];
    }
  }
}
