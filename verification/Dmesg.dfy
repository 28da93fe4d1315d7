// The in-RAM message log: variable-length records in a circular buffer.
module Dmesg {
  import opened Octets

  const SIZE: nat := 256
  const MSG_MAX: nat := 128
  const HEADER: nat := 5

  datatype Entry = Entry(stamp: nat, msg: seq<byte>)

  datatype Error = Ok | BufferFull | InvalidLength | CorruptedEntry | NotInitialized

  // ---- The log as a sequence of messages ----

  predicate Legal(e: Entry) {
    0 < |e.msg| <= 128 && e.stamp < 0x1_0000_0000
  }

  ghost predicate AllLegal(es: seq<Entry>) {
    forall i :: 0 <= i < |es| ==> Legal(es[i])
  }

  // A record: the time stamp, the length, the text.
  function RecordOf(e: Entry): (b: seq<byte>)
    requires Legal(e)
    ensures |b| == HEADER + |e.msg|
  {
    LittleEndian(e.stamp, 4) + [|e.msg|] + e.msg
  }

  ghost function Flat(es: seq<Entry>): seq<byte>
    requires AllLegal(es)
  {
    if |es| == 0 then [] else RecordOf(es[0]) + Flat(es[1..])
  }

  // One byte of the buffer always stays free.
  ghost predicate Fits(es: seq<Entry>, n: nat)
    requires AllLegal(es)
  {
    |Flat(es)| + n <= 255
  }

  // How many of the oldest entries must go to make room for n bytes.
  ghost function Evictions(es: seq<Entry>, n: nat): (k: nat)
    requires AllLegal(es)
    ensures k <= |es|
  {
    if |es| == 0 || Fits(es, n) then 0 else 1 + Evictions(es[1..], n)
  }

  // It is the least number that makes room, if any does: what stays is the longest suffix
  // that fits.
  lemma {:induction false} EvictionsLeast(es: seq<Entry>, n: nat)
    requires AllLegal(es) && n <= SIZE - 1
    ensures Fits(es[Evictions(es, n)..], n)
    ensures forall j :: 0 <= j < Evictions(es, n) ==> !Fits(es[j..], n)
    decreases |es|
  {
    var k := Evictions(es, n);
    if k > 0 {
      EvictionsLeast(es[1..], n);
      assert es[k..] == es[1..][k - 1..];
      forall j | 0 <= j < k ensures !Fits(es[j..], n) {
        if j == 0 {
          assert es[0..] == es;
        } else {
          assert es[j..] == es[1..][j - 1..];
        }
      }
    } else {
      assert es[0..] == es;
    }
  }

  // What a write does. The safety stop in the eviction loop compares the evictions so far with
  // the shrinking number of entries left, plus ten: it fires as soon as more than half of
  // n + 10 entries have had to go, and then the whole log is lost and the message with it.
  ghost function Written(es: seq<Entry>, e: Entry): (Error, seq<Entry>)
    requires AllLegal(es) && Legal(e)
  {
    var k := Evictions(es, HEADER + |e.msg|);
    if 2 * k > |es| + 10 then (BufferFull, []) else (Ok, es[k..] + [e])
  }

  // ---- The buffer ----

  // n bytes from offset r on, round the end of the buffer.
  ghost function Window(buf: seq<byte>, r: nat, n: nat): (w: seq<byte>)
    requires |buf| == SIZE
    ensures |w| == n
  {
    seq(n, i requires 0 <= i < n => buf[(r + i) % SIZE])
  }

  lemma Wrap(r: nat, i: nat)
    ensures (r % SIZE + i) % SIZE == (r + i) % SIZE
  {
  }

  lemma WindowDrop(buf: seq<byte>, r: nat, n: nat, j: nat)
    requires |buf| == SIZE && j <= n
    ensures Window(buf, r, n)[j..] == Window(buf, (r + j) % SIZE, n - j)
    ensures Window(buf, r, n)[..j] == Window(buf, r, j)
  {
    var v, w := Window(buf, r, n), Window(buf, (r + j) % SIZE, n - j);
    forall i | 0 <= i < n - j ensures v[j..][i] == w[i] {
      Wrap(r + j, i);
    }
  }

  lemma FlatCons(es: seq<Entry>)
    requires AllLegal(es) && |es| > 0
    ensures Flat(es) == RecordOf(es[0]) + Flat(es[1..])
  {
    hide RecordOf;
  }

  lemma {:induction false} FlatAppend(es: seq<Entry>, e: Entry)
    requires AllLegal(es) && Legal(e)
    ensures AllLegal(es + [e]) && Flat(es + [e]) == Flat(es) + RecordOf(e)
    decreases |es|
  {
    hide RecordOf, Legal;
    FlatCons(es + [e]);
    if |es| == 0 {
      assert (es + [e])[1..] == [];
      assert RecordOf(e) + [] == RecordOf(e);
    } else {
      hide Flat;
      assert (es + [e])[1..] == es[1..] + [e];
      FlatAppend(es[1..], e);
      FlatCons(es);
    }
  }

  class Log {
    const buffer: array<byte>
    var writeOffset: nat
    var readOffset: nat
    var logCount: nat
    var initialized: bool
    var totalWrites: nat
    var dropped: nat
    var maxEntries: nat
    ghost var entries: seq<Entry>

    function Used(): nat
      requires readOffset < SIZE && writeOffset < SIZE
      reads this
    {
      (writeOffset + SIZE - readOffset) % SIZE
    }

    // From the read to the write offset the buffer holds exactly the records of the entries.
    ghost predicate Valid()
      reads this, buffer
    {
      && buffer.Length == SIZE && readOffset < SIZE && writeOffset < SIZE
      && AllLegal(entries) && logCount == |entries|
      && Used() == |Flat(entries)|
      && Window(buffer[..], readOffset, Used()) == Flat(entries)
    }

    function AvailableSpace(): (n: nat)
      requires readOffset < SIZE && writeOffset < SIZE
      reads this
      ensures n == SIZE - 1 - Used()
    {
      if readOffset <= writeOffset then SIZE - (writeOffset - readOffset) - 1 else readOffset - writeOffset - 1
    }

    constructor ()
      ensures Valid() && fresh(buffer) && entries == [] && !initialized && dropped == 0 && totalWrites == 0
    {
      buffer := new byte[SIZE](i => 0);
      writeOffset, readOffset, logCount, initialized := 0, 0, 0, false;
      totalWrites, dropped, maxEntries, entries := 0, 0, 0, [];
    }

    method Init()
      requires Valid()
      modifies this, buffer
      ensures Valid() && initialized
      ensures entries == if old(initialized) then old(entries) else []
    {
      if initialized {
        return;
      }
      writeOffset, readOffset, logCount, totalWrites, dropped, maxEntries := 0, 0, 0, 0, 0, 0;
      forall i | 0 <= i < buffer.Length {
        buffer[i] := 0;
      }
      entries := [];
      initialized := true;
    }

    // The bytes at offset r, as a header is read: one at a time, round the end.
    method Peek(r: nat, n: nat) returns (b: seq<byte>, off: nat)
      requires buffer.Length == SIZE && r < SIZE
      ensures b == Window(buffer[..], r, n) && off == (r + n) % SIZE
    {
      b, off := [], r;
      var i := 0;
      while i < n
        invariant 0 <= i <= n && off == (r + i) % SIZE && off < SIZE
        invariant b == Window(buffer[..], r, i)
      {
        b := b + [buffer[off]];
        off := (off + 1) % SIZE;
        i := i + 1;
      }
    }

    lemma FirstRecord()
      requires Valid() && logCount > 0
      ensures var e := entries[0];
              && Window(buffer[..], readOffset, HEADER) == LittleEndian(e.stamp, 4) + [|e.msg|]
              && Window(buffer[..], (readOffset + HEADER) % SIZE, |e.msg|) == e.msg
              && HEADER + |e.msg| <= Used()
              && Window(buffer[..], (readOffset + HEADER + |e.msg|) % SIZE, Used() - HEADER - |e.msg|) == Flat(entries[1..])
    {
      hide Flat;
      RecordAt(buffer[..], readOffset, entries, Used());
    }

    // The corrupted-entry branch of the original cannot be reached: the length read here is
    // that of a record.
    method EvictOldest()
      requires Valid()
      modifies this
      ensures Valid() && dropped == old(dropped) && initialized == old(initialized)
      ensures totalWrites == old(totalWrites) && writeOffset == old(writeOffset)
      ensures entries == if old(|entries|) == 0 then [] else old(entries)[1..]
    {
      if logCount == 0 {
        return;
      }
      hide Flat, Window, RecordOf;
      FirstRecord();
      var header, off := Peek(readOffset, HEADER);
      var length := header[4];
      assert 0 < length <= MSG_MAX;
      FlatLength(entries);
      Wrap(readOffset + HEADER, length);
      Closer(readOffset, writeOffset, HEADER + length);
      readOffset := (off + length) % SIZE;
      logCount := logCount - 1;
      entries := entries[1..];
    }

    // Stores bytes from offset off on. Ghost: the window before it, which stays as it is.
    method PutBytes(off: nat, b: seq<byte>, ghost r: nat, ghost n: nat) returns (off': nat)
      requires buffer.Length == SIZE && r < SIZE && off == (r + n) % SIZE && n + |b| < SIZE
      modifies buffer
      ensures Window(buffer[..], r, n + |b|) == Window(old(buffer[..]), r, n) + b
      ensures off' == (r + n + |b|) % SIZE
    {
      hide Window;
      off' := off;
      var i := 0;
      assert b[..0] == [] && Window(buffer[..], r, n) + [] == Window(buffer[..], r, n);
      while i < |b|
        invariant 0 <= i <= |b| && off' == (r + n + i) % SIZE
        invariant Window(buffer[..], r, n + i) == Window(old(buffer[..]), r, n) + b[..i]
      {
        WriteAt(buffer[..], r, n + i, b[i]);
        buffer[off'] := b[i];
        off' := (off' + 1) % SIZE;
        Wrap(r + n + i, 1);
        i := i + 1;
        assert b[..i] == b[..i - 1] + [b[i - 1]];
      }
      assert b[..|b|] == b;
    }

    method FullReset()
      requires buffer.Length == SIZE
      modifies this`writeOffset, this`readOffset, this`logCount, this`entries
      ensures Valid() && entries == []
    {
      writeOffset, readOffset, logCount := 0, 0, 0;
      entries := [];
      NothingLeft(buffer[..]);
    }

    method WriteEntry(msg: seq<byte>, stamp: nat) returns (err: Error)
      requires Valid() && stamp < 0x1_0000_0000
      modifies this, buffer
      ensures Valid() && initialized == old(initialized)
      ensures !(0 < |msg| <= 128) ==> err == InvalidLength && entries == old(entries) && dropped == old(dropped)
      ensures 0 < |msg| <= 128 ==>
                && (err, entries) == Written(old(entries), Entry(stamp, msg))
                && dropped == old(dropped) + (if err == Ok then Evictions(old(entries), 5 + |msg|) else 1)
    {
      if |msg| == 0 || |msg| > MSG_MAX {
        return InvalidLength;
      }
      hide Flat, Window, RecordOf;
      var required := HEADER + |msg|;
      var evicted := 0;
      while AvailableSpace() < required && logCount > 0
        invariant Valid() && initialized == old(initialized) && dropped == old(dropped) && buffer[..] == old(buffer[..])
        invariant evicted + logCount == |old(entries)| && 2 * evicted <= |old(entries)| + 10
        invariant Evictions(old(entries), required) == evicted + Evictions(entries, required)
        invariant evicted <= |old(entries)| && entries == old(entries)[evicted..]
        decreases logCount
      {
        EvictOldest();
        evicted := evicted + 1;
        if evicted > logCount + 10 {
          FullReset();
          dropped := dropped + 1;
          return BufferFull;
        }
      }
      dropped := dropped + evicted;
      NothingLeft(buffer[..]);
      AppendEntry(msg, stamp);
      return Ok;
    }

    // The room is there: the original's final space check cannot fail.
    method AppendEntry(msg: seq<byte>, stamp: nat)
      requires Valid() && stamp < 0x1_0000_0000 && 0 < |msg| <= MSG_MAX && AvailableSpace() >= HEADER + |msg|
      modifies this`writeOffset, this`logCount, this`totalWrites, this`maxEntries, this`entries, buffer
      ensures Valid() && entries == old(entries) + [Entry(stamp, msg)]
    {
      hide Flat, Window;
      ghost var e, used := Entry(stamp, msg), Used();
      FlatAppend(entries, e);
      var header := LittleEndian(stamp, 4) + [|msg|];
      EndOfWindow(readOffset, writeOffset);
      var off := PutBytes(writeOffset, header, readOffset, used);
      off := PutBytes(off, msg, readOffset, used + HEADER);
      assert Flat(entries) + header + msg == Flat(entries) + RecordOf(e);
      Farther(readOffset, used + HEADER + |msg|);
      writeOffset := off;
      logCount := logCount + 1;
      totalWrites := totalWrites + 1;
      if logCount > maxEntries {
        maxEntries := logCount;
      }
      entries := entries + [e];
    }

    // text is what precedes the terminating zero; longer texts are cut.
    method Write(text: seq<byte>, tick: nat) returns (err: Error)
      requires Valid() && tick < 0x1_0000_0000
      modifies this, buffer
      ensures Valid() && initialized == old(initialized)
      ensures (err, entries) ==
              if !initialized then (NotInitialized, old(entries))
              else if |text| == 0 then (InvalidLength, old(entries))
              else Written(old(entries), Entry(tick, text[..if |text| <= 128 then |text| else 128]))
    {
      if !initialized {
        return NotInitialized;
      }
      var len := 0;
      while len < |text| && len < MSG_MAX
        invariant 0 <= len <= |text| && len <= MSG_MAX
      {
        len := len + 1;
      }
      if len == 0 {
        return InvalidLength;
      }
      err := WriteEntry(text[..len], tick);
    }

    method Clear() returns (err: Error)
      requires Valid()
      modifies this
      ensures Valid() && initialized == old(initialized)
      ensures (err, entries) == if initialized then (Ok, []) else (NotInitialized, old(entries))
    {
      if !initialized {
        return NotInitialized;
      }
      FullReset();
      return Ok;
    }

    // The record of the i-th entry, and then those after it, start at offset off.
    ghost predicate StartsAt(off: nat, i: nat)
      requires Valid() && i <= |entries|
      reads this, buffer
    {
      off < SIZE && Window(buffer[..], off, |Flat(entries[i..])|) == Flat(entries[i..])
    }

    // The entry whose record starts at offset off, the i-th; at most bufSize - 1 of its bytes.
    method ReadEntry(off: nat, bufSize: nat, ghost i: nat) returns (msg: seq<byte>, stamp: nat, off': nat)
      requires Valid() && i < |entries| && StartsAt(off, i) && bufSize > 0
      ensures var m := entries[i].msg;
              msg == m[..if |m| < bufSize - 1 then |m| else bufSize - 1] && stamp == entries[i].stamp
      ensures StartsAt(off', i + 1)
    {
      hide Flat, Window, RecordOf;
      ghost var es := entries[i..];
      RecordAt(buffer[..], off, es, |Flat(es)|);
      FlatLength(es);
      assert es[0] == entries[i] && es[1..] == entries[i + 1..];
      var header, o := Peek(off, HEADER);
      var length := header[4];
      assert header[..4] == LittleEndian(entries[i].stamp, 4);
      WordSizes();
      WordRoundTrip(entries[i].stamp, 4);
      stamp := FromLittleEndian(header[..4]);
      var copyLen := if length < bufSize - 1 then length else bufSize - 1;
      WindowDrop(buffer[..], o, length, copyLen);
      msg, off' := Peek(o, copyLen);
      var k := copyLen;
      while k < length
        invariant copyLen <= k <= length && off' == (o + k) % SIZE
      {
        off' := (off' + 1) % SIZE;
        Wrap(o + k, 1);
        k := k + 1;
      }
      Wrap(off + HEADER, length);
    }

    // Steps over the first n records.
    method SkipEntries(n: nat) returns (off: nat)
      requires Valid() && n <= logCount
      ensures StartsAt(off, n)
    {
      hide Flat, Window, RecordOf, Legal;
      off := readOffset;
      var i := 0;
      assert entries[0..] == entries;
      while i < n
        invariant 0 <= i <= n && StartsAt(off, i)
      {
        var msg, stamp, next := ReadEntry(off, 1, i);
        off := next;
        i := i + 1;
      }
    }

    // What is printed: the latest n entries, oldest first.
    method GetLatest(n: nat) returns (shown: seq<Entry>)
      requires Valid()
      ensures shown == if initialized then entries[|entries| - (if n < |entries| then n else |entries|)..] else []
    {
      shown := [];
      if !initialized {
        return;
      }
      hide Flat, Window, RecordOf, Legal, StartsAt;
      var count := if n < logCount then n else logCount;
      var skip := logCount - count;
      var off: nat := SkipEntries(skip);
      var i := 0;
      while i < count
        invariant 0 <= i <= count && StartsAt(off, skip + i)
        invariant shown == entries[skip..skip + i]
      {
        var msg, stamp, next := ReadEntry(off, MSG_MAX + 1, skip + i);
        WholeText(entries, skip + i);
        shown := shown + [Entry(stamp, msg)];
        off := next;
        i := i + 1;
      }
      assert entries[skip..skip + count] == entries[skip..];
    }
  }

  lemma WholeText(es: seq<Entry>, i: nat)
    requires AllLegal(es) && i < |es|
    ensures |es[i].msg| <= MSG_MAX && es[i].msg[..|es[i].msg|] == es[i].msg && Entry(es[i].stamp, es[i].msg) == es[i]
  {
  }

  // An empty window holds nothing.
  lemma NothingLeft(buf: seq<byte>)
    requires |buf| == SIZE
    ensures Window(buf, 0, 0) == Flat([]) && Flat([]) == []
  {
  }

  lemma WriteAt(buf: seq<byte>, r: nat, n: nat, v: byte)
    requires |buf| == SIZE && n < SIZE
    ensures Window(buf[(r + n) % SIZE := v], r, n + 1) == Window(buf, r, n) + [v]
  {
  }

  lemma EndOfWindow(r: nat, w: nat)
    requires r < SIZE && w < SIZE
    ensures w == (r + (w + SIZE - r) % SIZE) % SIZE
  {
  }

  lemma Farther(r: nat, n: nat)
    requires r < SIZE && n < SIZE
    ensures ((r + n) % SIZE + SIZE - r) % SIZE == n
  {
  }

  // Moving the read offset forward uses up as many bytes.
  lemma Closer(r: nat, w: nat, h: nat)
    requires r < SIZE && w < SIZE && h <= (w + SIZE - r) % SIZE
    ensures (w + SIZE - (r + h) % SIZE) % SIZE == (w + SIZE - r) % SIZE - h
  {
  }

  lemma FlatLength(es: seq<Entry>)
    requires AllLegal(es) && |es| > 0
    ensures |Flat(es)| == HEADER + |es[0].msg| + |Flat(es[1..])|
  {
  }

  // The first of the records in a window.
  lemma RecordAt(buf: seq<byte>, r: nat, es: seq<Entry>, n: nat)
    requires |buf| == SIZE && AllLegal(es) && |es| > 0 && Window(buf, r, n) == Flat(es)
    ensures var e := es[0];
            var h := HEADER + |e.msg|;
            && Window(buf, r, HEADER) == LittleEndian(e.stamp, 4) + [|e.msg|]
            && Window(buf, (r + HEADER) % SIZE, |e.msg|) == e.msg
            && h <= n && Window(buf, (r + h) % SIZE, n - h) == Flat(es[1..])
  {
    hide Window;
    var e, w := es[0], Window(buf, r, n);
    var h := HEADER + |e.msg|;
    var head := LittleEndian(e.stamp, 4) + [|e.msg|];
    assert w == head + e.msg + Flat(es[1..]);
    WindowDrop(buf, r, n, HEADER);
    WindowDrop(buf, r, n, h);
    WindowDrop(buf, r, h, HEADER);
    assert w[..HEADER] == head && w[..h] == head + e.msg && w[h..] == Flat(es[1..]);
    assert (head + e.msg)[HEADER..] == e.msg;
  }

  // ---- Every run of writes ----

  ghost function WrittenAll(ws: seq<Entry>): (es: seq<Entry>)
    requires AllLegal(ws)
    ensures AllLegal(es)
    decreases |ws|
  {
    if |ws| == 0 then [] else Written(WrittenAll(ws[..|ws| - 1]), ws[|ws| - 1]).1
  }

  // The log holds the latest writes, in order and without gaps, and never more than fits.
  lemma {:induction false} HoldsTheLatest(ws: seq<Entry>) returns (j: nat)
    requires AllLegal(ws)
    ensures j <= |ws| && WrittenAll(ws) == ws[j..] && Fits(WrittenAll(ws), 0)
    decreases |ws|
  {
    hide Fits, Written, Legal;
    if |ws| == 0 {
      NothingFits();
      assert ws[0..] == [];
      return 0;
    }
    var n, e := |ws| - 1, ws[|ws| - 1];
    var i := HoldsTheLatest(ws[..n]);
    var es := WrittenAll(ws[..n]);
    var k := OneWrite(es, e);
    if Written(es, e).1 == [] {
      j := |ws|;
    } else {
      j := i + k;
      assert ws[..n][i..][k..] + [e] == ws[j..];
    }
  }

  lemma NothingFits()
    ensures Fits([], 0)
  {
  }

  lemma OneWrite(es: seq<Entry>, e: Entry) returns (k: nat)
    requires AllLegal(es) && Legal(e)
    ensures k <= |es| && (Written(es, e).1 == [] || Written(es, e).1 == es[k..] + [e])
    ensures AllLegal(Written(es, e).1) && Fits(Written(es, e).1, 0)
  {
    hide Flat, RecordOf;
    k := Evictions(es, HEADER + |e.msg|);
    EvictionsLeast(es, HEADER + |e.msg|);
    FlatAppend(es[k..], e);
    NothingLeft(seq(SIZE, i => 0));
  }

  // Every log that fits is reached by writing its messages in order.
  lemma {:induction false} FittingIsReached(es: seq<Entry>)
    requires AllLegal(es) && Fits(es, 0)
    ensures WrittenAll(es) == es
    decreases |es|
  {
    if |es| > 0 {
      hide Flat, RecordOf, WrittenAll;
      var n, e := |es| - 1, es[|es| - 1];
      assert es == es[..n] + [e];
      FlatAppend(es[..n], e);
      FittingIsReached(es[..n]);
      LastWrite(es);
      assert es[..n][0..] == es[..n];
    }
  }

  lemma LastWrite(ws: seq<Entry>)
    requires AllLegal(ws) && |ws| > 0
    ensures WrittenAll(ws) == Written(WrittenAll(ws[..|ws| - 1]), ws[|ws| - 1]).1
  {
    hide Written;
  }

  // ---- When a write is lost ----

  // Every record takes at least six bytes.
  lemma {:induction false} SuffixSize(es: seq<Entry>, j: nat)
    requires AllLegal(es) && j <= |es|
    ensures |Flat(es)| >= (HEADER + 1) * j + |Flat(es[j..])|
    decreases j
  {
    if j == 0 {
      assert es[0..] == es;
    } else {
      FlatLength(es);
      SuffixSize(es[1..], j - 1);
      assert es[1..][j - 1..] == es[j..];
    }
  }

  lemma FitsFurther(es: seq<Entry>, k: nat, j: nat, n: nat)
    requires AllLegal(es) && k <= j <= |es| && Fits(es[k..], n)
    ensures Fits(es[j..], n)
  {
    hide Flat, RecordOf;
    SuffixSize(es[k..], j - k);
    assert es[k..][j - k..] == es[j..];
  }

  // If more than half of n + 10 entries have to go, the safety stop fires.
  lemma LostWrite(es: seq<Entry>, e: Entry, t: nat)
    requires AllLegal(es) && Legal(e) && 0 < t <= |es| && 2 * t > |es| + 10
    requires !Fits(es[t - 1..], HEADER + |e.msg|)
    ensures Written(es, e) == (BufferFull, [])
  {
    hide Flat, RecordOf;
    var k := Evictions(es, HEADER + |e.msg|);
    EvictionsLeast(es, HEADER + |e.msg|);
    if k < t {
      FitsFurther(es, k, t - 1, HEADER + |e.msg|);
    }
  }

  lemma LossBounds(es: seq<Entry>, e: Entry)
    requires AllLegal(es) && Legal(e) && Fits(es, 0) && Written(es, e).0 == BufferFull
    ensures 11 <= |es| <= 35
  {
    hide Flat, RecordOf;
    var k := Evictions(es, HEADER + |e.msg|);
    EvictionsLeast(es, HEADER + |e.msg|);
    SuffixSize(es, k - 1);
  }

  function Copies(e: Entry, n: nat): (es: seq<Entry>)
    ensures |es| == n && forall i :: 0 <= i < n ==> es[i] == e
  {
    seq(n, i => e)
  }

  const SHORT := Entry(0, [65])

  // n short messages and a last one.
  lemma {:induction false} ShortsAndOne(last: Entry, n: nat)
    requires Legal(last)
    ensures AllLegal(Copies(SHORT, n) + [last])
    ensures |Flat(Copies(SHORT, n) + [last])| == (HEADER + 1) * n + HEADER + |last.msg|
  {
    var es := Copies(SHORT, n) + [last];
    FlatLength(es);
    if n > 0 {
      ShortsAndOne(last, n - 1);
      assert es[1..] == Copies(SHORT, n - 1) + [last];
    }
  }

  lemma LostAfterShorts(last: Entry, e: Entry, n: nat, t: nat)
    requires Legal(last) && Legal(e) && 0 < t <= n && 2 * t > n + 10
    requires (HEADER + 1) * (n - t) + HEADER + |last.msg| + HEADER + |e.msg| >= SIZE
    ensures var es := Copies(SHORT, n - 1) + [last]; AllLegal(es) && Written(es, e) == (BufferFull, [])
  {
    hide Flat, RecordOf, Written;
    var es := Copies(SHORT, n - 1) + [last];
    ShortsAndOne(last, n - 1);
    ShortsAndOne(last, n - t);
    assert es[t - 1..] == Copies(SHORT, n - t) + [last];
    LostWrite(es, e, t);
  }

  // Ten short messages and a long one are enough: the next long message empties the log and
  // is itself lost, although making room for it was possible.
  lemma WriteCanBeLost()
    ensures var long := Entry(0, seq(MSG_MAX, i => 65));
            && Legal(long) && AllLegal(Copies(SHORT, 10) + [long])
            && WrittenAll(Copies(SHORT, 10) + [long]) == Copies(SHORT, 10) + [long]
            && Written(Copies(SHORT, 10) + [long], long) == (BufferFull, [])
  {
    hide Flat, RecordOf, Written, WrittenAll;
    var long := Entry(0, seq(MSG_MAX, i => 65));
    ShortsAndOne(long, 10);
    LostAfterShorts(long, long, 11, 11);
    FittingIsReached(Copies(SHORT, 10) + [long]);
  }

  // Some log of n entries can lose a write.
  ghost predicate Losable(n: nat) {
    exists es: seq<Entry>, e: Entry ::
      AllLegal(es) && Legal(e) && |es| == n && Fits(es, 0) && Written(es, e).0 == BufferFull
  }

  // The number of entries tells when no write can be lost: up to ten, and from 36 on.
  lemma LossByCount(n: nat)
    ensures Losable(n) <==> 11 <= n <= 35
  {
    hide Flat, RecordOf, Written;
    if 11 <= n <= 35 {
      var t := (n + 10) / 2 + 1;
      var last, e := Entry(0, seq(118 - 6 * (n - t), i => 65)), Entry(0, seq(MSG_MAX, i => 65));
      ShortsAndOne(last, n - 1);
      LostAfterShorts(last, e, n, t);
      assert Written(Copies(SHORT, n - 1) + [last], e).0 == BufferFull;
    }
    forall es: seq<Entry>, e: Entry
      | AllLegal(es) && Legal(e) && |es| == n && Fits(es, 0) && Written(es, e).0 == BufferFull
      ensures 11 <= n <= 35
    {
      LossBounds(es, e);
    }
  }
}
