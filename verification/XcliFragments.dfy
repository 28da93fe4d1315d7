// Splitting a response into frames at field boundaries.
module XcliFragments {
  import opened Octets
  import opened XcliSerial

  const FRAG_MAX: nat := 255 - 6
  const MAX_RESPONSE: nat := 2048
  const RESPONSE: byte := 1

  function Size(fs: seq<Field>): (n: nat)
    ensures n == |Serialised(fs)|
  {
    |Serialised(fs)|
  }

  ghost predicate Small(fs: seq<Field>) {
    forall i :: 0 <= i < |fs| ==> Sendable(fs[i]) && |WireOf(fs[i])| <= FRAG_MAX
  }

  // ---- The greedy split ----

  // The longest prefix of fs, no shorter than the first k fields, that fits one fragment.
  function Longest(fs: seq<Field>, k: nat): (n: nat)
    requires k <= |fs|
    ensures k <= n <= |fs|
    decreases |fs| - k
  {
    if k < |fs| && Size(fs[..k + 1]) <= FRAG_MAX then Longest(fs, k + 1) else k
  }

  function Greedy(fs: seq<Field>): seq<seq<Field>>
    requires forall i :: 0 <= i < |fs| ==> |WireOf(fs[i])| <= FRAG_MAX
    decreases |fs|
  {
    if |fs| == 0 then [] else
    FirstFits(fs);
    var n := Longest(fs, 1);
    [fs[..n]] + Greedy(fs[n..])
  }

  lemma FirstFits(fs: seq<Field>)
    requires |fs| > 0
    ensures Serialised(fs[..1]) == WireOf(fs[0])
  {
    assert fs[..1] == [fs[0]];
    SerialisedOne(fs[0]);
  }

  lemma SizeSplit(fs: seq<Field>, k: nat)
    requires k <= |fs|
    ensures Serialised(fs) == Serialised(fs[..k]) + Serialised(fs[k..])
  {
    assert fs == fs[..k] + fs[k..];
    SerialisedAppend(fs[..k], fs[k..]);
  }

  lemma SizeSnoc(fs: seq<Field>, k: nat)
    requires k < |fs|
    ensures Size(fs[..k + 1]) == Size(fs[..k]) + |WireOf(fs[k])|
  {
    assert fs[..k + 1] == fs[..k] + [fs[k]];
    SerialisedAppend(fs[..k], [fs[k]]);
    SerialisedOne(fs[k]);
  }

  lemma {:induction false} LongestFits(fs: seq<Field>, k: nat)
    requires k <= |fs| && Size(fs[..k]) <= FRAG_MAX
    ensures var n := Longest(fs, k);
            Size(fs[..n]) <= FRAG_MAX && (n < |fs| ==> Size(fs[..n + 1]) > FRAG_MAX)
    decreases |fs| - k
  {
    if k < |fs| && Size(fs[..k + 1]) <= FRAG_MAX {
      LongestFits(fs, k + 1);
    }
  }

  lemma SizeMonotone(fs: seq<Field>, i: nat, j: nat)
    requires i <= j <= |fs|
    ensures Size(fs[..i]) <= Size(fs[..j])
  {
    SizeSplit(fs[..j], i);
    assert fs[..j][..i] == fs[..i];
  }

  // A prefix that fits is no longer than the longest.
  lemma LongestIsLongest(fs: seq<Field>, k: nat, j: nat)
    requires k <= |fs| && Size(fs[..k]) <= FRAG_MAX && j <= |fs| && Size(fs[..j]) <= FRAG_MAX
    ensures j <= Longest(fs, k)
  {
    LongestFits(fs, k);
    var n := Longest(fs, k);
    if j > n {
      SizeMonotone(fs, n + 1, j);
    }
  }

  // ---- What a split is, and why this one is best ----

  function Concat(groups: seq<seq<Field>>): seq<Field> {
    if |groups| == 0 then [] else groups[0] + Concat(groups[1..])
  }

  // Whole fields only, in order, each group small enough for one frame.
  ghost predicate IsSplit(groups: seq<seq<Field>>, fs: seq<Field>) {
    Concat(groups) == fs && forall i :: 0 <= i < |groups| ==> Size(groups[i]) <= 255 - 6
  }

  lemma SplitCons(g: seq<Field>, groups: seq<seq<Field>>, fs: seq<Field>)
    requires IsSplit(groups, fs) && Size(g) <= FRAG_MAX
    ensures IsSplit([g] + groups, g + fs)
  {
    hide Size;
    assert ([g] + groups)[1..] == groups;
  }

  lemma {:induction false} GreedyIsSplit(fs: seq<Field>)
    requires Small(fs)
    ensures IsSplit(Greedy(fs), fs) && forall g :: g in Greedy(fs) ==> g != []
    decreases |fs|
  {
    if |fs| > 0 {
      hide Longest, Size, Serialised, WireOf, Sendable, Greedy, IsSplit;
      OneFits(fs);
      var n := Longest(fs, 1);
      LongestFits(fs, 1);
      GreedyIsSplit(fs[n..]);
      SplitCons(fs[..n], Greedy(fs[n..]), fs[n..]);
      GreedyUnfold(fs);
      assert fs == fs[..n] + fs[n..];
    }
  }

  lemma SizeOfTail(fs: seq<Field>, j: nat)
    requires j <= |fs|
    ensures Size(fs[j..]) <= Size(fs)
  {
    SizeSplit(fs, j);
  }

  lemma PrefixTail(fs: seq<Field>, j: nat, n: nat)
    requires j <= n <= |fs|
    ensures Size(fs[j..][..n - j]) <= Size(fs[..n])
  {
    hide Size;
    assert fs[..n][j..] == fs[j..][..n - j];
    SizeOfTail(fs[..n], j);
  }

  lemma OneFits(fs: seq<Field>)
    requires Small(fs) && |fs| > 0
    ensures Size(fs[..1]) <= FRAG_MAX
  {
    FirstFits(fs);
  }

  // What the longest prefix of fs leaves after its first j fields fits a fragment.
  lemma RestFits(fs: seq<Field>, j: nat)
    requires Small(fs) && |fs| > 0 && j < Longest(fs, 1)
    ensures Size(fs[j..][..Longest(fs, 1) - j]) <= FRAG_MAX
  {
    hide *;
    OneFits(fs);
    LongestFits(fs, 1);
    PrefixTail(fs, j, Longest(fs, 1));
  }

  // A fragment that starts later reaches at least as far.
  lemma LongestLater(fs: seq<Field>, j: nat)
    requires Small(fs) && |fs| > 0 && j < Longest(fs, 1)
    ensures j + Longest(fs[j..], 1) >= Longest(fs, 1)
  {
    hide *;
    SmallTail(fs, j);
    OneFits(fs[j..]);
    RestFits(fs, j);
    LongestIsLongest(fs[j..], 1, Longest(fs, 1) - j);
  }

  lemma GreedyStep(fs: seq<Field>)
    requires Small(fs) && |fs| > 0
    ensures Small(fs[Longest(fs, 1)..])
    ensures |Greedy(fs)| == 1 + |Greedy(fs[Longest(fs, 1)..])|
  {
    hide Longest, Serialised, WireOf, Sendable, Greedy;
    GreedyUnfold(fs);
  }

  // Starting further on never needs more fragments.
  lemma {:induction false} GreedyAhead(fs: seq<Field>, j: nat)
    requires Small(fs) && j <= |fs|
    ensures |Greedy(fs[j..])| <= |Greedy(fs)|
    decreases |fs|, 1
  {
    if |fs| == 0 {
      assert fs[j..] == fs;
    } else {
      hide Longest, Serialised, WireOf, Sendable, Greedy;
      var n := Longest(fs, 1);
      GreedyStep(fs);
      if j >= n {
        GreedyAhead(fs[n..], j - n);
        assert fs[n..][j - n..] == fs[j..];
      } else {
        GreedyOverlap(fs, j);
      }
    }
  }

  lemma {:induction false} GreedyOverlap(fs: seq<Field>, j: nat)
    requires Small(fs) && |fs| > 0 && j < Longest(fs, 1)
    ensures |Greedy(fs[j..])| <= |Greedy(fs)|
    decreases |fs|, 0
  {
    hide Longest, Serialised, WireOf, Sendable, Greedy;
    var n, t := Longest(fs, 1), fs[j..];
    var p := Longest(t, 1);
    GreedyStep(fs);
    GreedyStep(t);
    LongestLater(fs, j);
    assert fs[n..][p - (n - j)..] == t[p..];
    GreedyAhead(fs[n..], p - (n - j));
  }

  // No split at field boundaries has fewer fragments.
  lemma {:induction false} GreedyIsMinimal(fs: seq<Field>, groups: seq<seq<Field>>)
    requires Small(fs) && IsSplit(groups, fs)
    ensures |Greedy(fs)| <= |groups|
    decreases |groups|
  {
    if |groups| > 0 && |fs| > 0 {
      OneFits(fs);
      var g, n := groups[0], Longest(fs, 1);
      assert fs[..|g|] == g && fs[|g|..] == Concat(groups[1..]);
      hide Longest, Serialised, WireOf, Sendable, Greedy;
      GreedyStep(fs);
      GreedyIsMinimal(fs[|g|..], groups[1..]);
      LongestIsLongest(fs, 1, |g|);
      assert fs[|g|..][n - |g|..] == fs[n..];
      GreedyAhead(fs[|g|..], n - |g|);
    }
  }

  // Two neighbouring fragments together exceed one frame, so few are needed.
  lemma {:induction false} GreedyIsFull(fs: seq<Field>)
    requires Small(fs)
    ensures 250 * (|Greedy(fs)| - 1) <= 2 * Size(fs)
    decreases |fs|
  {
    if |fs| > 0 {
      FirstFits(fs);
      var n := Longest(fs, 1);
      LongestFits(fs, 1);
      SizeSplit(fs, n);
      if n < |fs| {
        var t := fs[n..];
        FirstFits(t);
        var p := Longest(t, 1);
        SizeSnoc(fs, n);
        SizeSplit(t, p);
        LongestFits(t, 1);
        FirstInPrefix(t, p);
        GreedyIsFull(t[p..]);
      }
    }
  }

  lemma FirstInPrefix(t: seq<Field>, p: nat)
    requires 0 < p <= |t|
    ensures Size(t[..p]) >= |WireOf(t[0])|
  {
    SizeSplit(t[..p], 1);
    assert t[..p][..1] == t[..1];
    FirstFits(t);
  }

  // The count of fragments fits its byte, and the table of sizes never overflows.
  lemma FewFragments(fs: seq<Field>)
    requires Small(fs) && Size(fs) <= 2048
    ensures |Greedy(fs)| <= 17
  {
    GreedyIsFull(fs);
  }

  // ---- Walking the serialised fields ----

  function Sizes(groups: seq<seq<Field>>): (r: seq<nat>)
    ensures |r| == |groups|
  {
    seq(|groups|, i requires 0 <= i < |groups| => Size(groups[i]))
  }

  lemma SmallTail(fs: seq<Field>, i: nat)
    requires Small(fs) && i <= |fs|
    ensures Small(fs[i..])
  {
  }

  // The open fragment, with k fields of t in it, is the first of the greedy split if the next
  // field no longer fits or there is none.
  lemma Closes(t: seq<Field>, k: nat)
    requires Small(t) && 0 < k <= |t| && Size(t[..k]) <= FRAG_MAX && (k < |t| ==> Size(t[..k + 1]) > FRAG_MAX)
    ensures Greedy(t) == [t[..k]] + Greedy(t[k..])
  {
    hide Greedy, Serialised, WireOf, Longest, Sendable;
    FirstFits(t);
    assert |WireOf(t[0])| <= FRAG_MAX;
    LongestFits(t, 1);
    LongestIsLongest(t, 1, k);
    var n := Longest(t, 1);
    if k < n {
      SizeMonotone(t, k + 1, n);
    }
    GreedyUnfold(t);
  }

  lemma GreedyUnfold(t: seq<Field>)
    requires |t| > 0 && forall i :: 0 <= i < |t| ==> |WireOf(t[i])| <= FRAG_MAX
    ensures var n := Longest(t, 1); Greedy(t) == [t[..n]] + Greedy(t[n..])
  {
    hide Longest, WireOf, Serialised;
  }

  lemma SizesCons(g: seq<Field>, groups: seq<seq<Field>>)
    ensures Sizes([g] + groups) == [Size(g)] + Sizes(groups)
  {
  }

  // The header of the next field, read off the bytes.
  lemma NextField(fields: seq<byte>, pos: nat, fs: seq<Field>)
    requires pos <= |fields| && |fs| > 0 && Sendable(fs[0]) && fields[pos..] == Serialised(fs)
    ensures var f := fs[0];
            && pos + 4 + |f.name| <= |fields| && fields[pos] == |f.name|
            && Word(fields[pos + 1 + |f.name| + 1], fields[pos + 1 + |f.name| + 2]) == |f.data|
            && pos + |WireOf(f)| <= |fields| && fields[pos + |WireOf(f)|..] == Serialised(fs[1..])
  {
    hide Serialised;
    var f, s := fs[0], fields[pos..];
    SerialisedHead(fs);
    var w := WireOf(f);
    assert s[..|w|] == w && s[|w|..] == Serialised(fs[1..]);
    assert s[0] == w[0] && s[|f.name| + 2] == w[|f.name| + 2] && s[|f.name| + 3] == w[|f.name| + 3];
    SubSlice(fields, pos, |w|, |w|);
  }

  lemma SerialisedHead(fs: seq<Field>)
    requires |fs| > 0
    ensures Serialised(fs) == WireOf(fs[0]) + Serialised(fs[1..])
  {
  }

  lemma CloseAt(fs: seq<Field>, from: nat, to: nat, sizes: seq<nat>)
    requires Small(fs) && from < to <= |fs| && Size(fs[from..to]) <= FRAG_MAX
    requires to < |fs| ==> Size(fs[from..to]) + |WireOf(fs[to])| > FRAG_MAX
    requires Small(fs[from..]) && Sizes(Greedy(fs)) == sizes + Sizes(Greedy(fs[from..]))
    ensures Small(fs[to..]) && |sizes| < |Greedy(fs)|
    ensures Sizes(Greedy(fs)) == sizes + [Size(fs[from..to])] + Sizes(Greedy(fs[to..]))
  {
    hide Greedy, Longest, Serialised, WireOf, Sendable, Size, Sizes;
    var t, k := fs[from..], to - from;
    assert t[..k] == fs[from..to] && t[k..] == fs[to..];
    assert k < |t| ==> t[k] == fs[to];
    CloseFirst(t, k, sizes, Sizes(Greedy(fs)));
  }

  lemma CloseFirst(t: seq<Field>, k: nat, sizes: seq<nat>, all: seq<nat>)
    requires Small(t) && 0 < k <= |t| && Size(t[..k]) <= FRAG_MAX
    requires k < |t| ==> Size(t[..k]) + |WireOf(t[k])| > FRAG_MAX
    requires all == sizes + Sizes(Greedy(t))
    ensures Small(t[k..]) && |sizes| < |all|
    ensures all == sizes + [Size(t[..k])] + Sizes(Greedy(t[k..]))
  {
    hide Greedy, Longest, Serialised, WireOf, Sendable, Sizes;
    if k < |t| {
      SizeSnoc(t, k);
    }
    Closes(t, k);
    SizesCons(t[..k], Greedy(t[k..]));
    assert |Sizes(Greedy(t))| > 0;
  }

  lemma OneMore(fs: seq<Field>, from: nat, to: nat)
    requires from <= to < |fs|
    ensures Size(fs[from..to + 1]) == Size(fs[from..to]) + |WireOf(fs[to])|
  {
    var t := fs[from..];
    assert t[..to - from] == fs[from..to] && t[..to + 1 - from] == fs[from..to + 1] && t[to - from] == fs[to];
    SizeSnoc(t, to - from);
  }

  // The whole wire size of the field at pos.
  method FieldSize(fields: seq<byte>, pos: nat, ghost fs: seq<Field>) returns (wire: nat)
    requires pos < |fields| && |fs| > 0 && Sendable(fs[0]) && fields[pos..] == Serialised(fs)
    ensures wire == |WireOf(fs[0])| && pos + wire <= |fields| && fields[pos + wire..] == Serialised(fs[1..])
  {
    hide Serialised, Word;
    NextField(fields, pos, fs);
    var nameLen: nat := fields[pos];
    var dataLen := Word(fields[pos + 1 + nameLen + 1], fields[pos + 1 + nameLen + 2]);
    wire := 1 + nameLen + 1 + 2 + dataLen;
  }

  // Finds the fragment sizes by walking over the serialised fields. The table of 255 sizes is
  // never full.
  method Split(fields: seq<byte>, ghost fs: seq<Field>) returns (sizes: seq<nat>)
    requires Small(fs) && fields == Serialised(fs) && |fields| <= MAX_RESPONSE
    ensures sizes == Sizes(Greedy(fs))
  {
    hide Serialised, WireOf, Greedy, Longest, Sendable;
    sizes := [];
    var pos, fragStart, fragUsed := 0, 0, 0;
    ghost var from, to := 0, 0;
    assert fs[0..] == fs && fs[0..0] == [] && fields[0..] == fields;
    assert [] + Sizes(Greedy(fs)) == Sizes(Greedy(fs));
    NoFields();
    FewFragments(fs);
    while pos < |fields|
      invariant 0 <= from <= to <= |fs| && 0 <= fragStart <= pos <= |fields|
      invariant pos - fragStart == fragUsed == Size(fs[from..to]) < FRAG_MAX
      invariant fields[pos..] == Serialised(fs[to..]) && (fragUsed == 0 <==> from == to)
      invariant Small(fs[from..]) && Sizes(Greedy(fs)) == sizes + Sizes(Greedy(fs[from..]))
      decreases |fields| - pos
    {
      NotAtEnd(fs, to, fields[pos..]);
      assert fs[to..][0] == fs[to] && fs[to..][1..] == fs[to + 1..];
      var wire := FieldSize(fields, pos, fs[to..]);
      WireAtLeast(fs, to);
      if fragUsed > 0 && fragUsed + wire > FRAG_MAX {
        CloseAt(fs, from, to, sizes);
        if |sizes| < 255 {
          sizes := sizes + [pos - fragStart];
        }
        fragStart, fragUsed, from := pos, 0, to;
        assert fs[to..to] == [];
      }
      OneMore(fs, from, to);
      fragUsed := fragUsed + wire;
      pos := pos + wire;
      to := to + 1;
      if fragUsed >= FRAG_MAX {
        if to < |fs| {
          WireAtLeast(fs, to);
        }
        CloseAt(fs, from, to, sizes);
        if |sizes| < 255 {
          sizes := sizes + [pos - fragStart];
          fragStart, fragUsed, from := pos, 0, to;
          assert fs[to..to] == [];
        }
      }
    }
    AtEnd(fs, to);
    if fragUsed > 0 {
      CloseAt(fs, from, to, sizes);
      if |sizes| < 255 {
        sizes := sizes + [pos - fragStart];
      }
    }
    assert fs[|fs|..] == [];
    NoGroups();
    assert sizes + [] == sizes;
  }

  lemma NoFields()
    ensures Serialised([]) == []
  {
  }

  lemma NoGroups()
    ensures Greedy([]) == [] && Sizes([]) == []
  {
  }

  lemma NotAtEnd(fs: seq<Field>, to: nat, s: seq<byte>)
    requires to <= |fs| && s == Serialised(fs[to..]) && |s| > 0
    ensures to < |fs|
  {
  }

  lemma AtEnd(fs: seq<Field>, to: nat)
    requires to <= |fs| && Serialised(fs[to..]) == []
    ensures to == |fs|
  {
  }

  lemma WireAtLeast(fs: seq<Field>, i: nat)
    requires Small(fs) && i < |fs|
    ensures 4 <= |WireOf(fs[i])| <= FRAG_MAX && Sendable(fs[i])
  {
  }

  // ---- Frames ----

  // The fragments a response goes out in; one empty one if there are no fields.
  function Fragments(fs: seq<Field>): (r: seq<seq<Field>>)
    requires Small(fs)
  {
    if |fs| == 0 then [[]] else Greedy(fs)
  }

  // Every frame carries one fragment, the count and its index, and fits the link.
  method SendResponse(cmd: byte, seqNo: byte, status: byte, fields: seq<byte>, ghost fs: seq<Field>) returns (frames: seq<seq<byte>>)
    requires Small(fs) && fields == Serialised(fs) && |fields| <= MAX_RESPONSE
    ensures var groups := Fragments(fs);
            && 0 < |groups| == |frames| <= 17
            && forall i :: 0 <= i < |groups| ==>
                 && 6 <= |frames[i]| <= 255
                 && frames[i][..6] == [1, cmd, seqNo, status, |groups|, i]
                 && frames[i][6..] == Serialised(groups[i])
  {
    hide Serialised, WireOf, Greedy, Longest, Small;
    ghost var groups := Fragments(fs);
    var sizes: seq<nat>;
    if |fields| == 0 {
      EmptyResponse(fs);
      sizes := [0];
    } else {
      NoFields();
      FewFragments(fs);
      SomeFragment(fs);
      sizes := Split(fields, fs);
    }
    FragmentsSplit(fs);
    frames := SendFrames(cmd, seqNo, status, fields, sizes, groups);
  }

  method SendFrames(cmd: byte, seqNo: byte, status: byte, fields: seq<byte>, sizes: seq<nat>, ghost groups: seq<seq<Field>>)
    returns (frames: seq<seq<byte>>)
    requires |sizes| < 256 && sizes == Sizes(groups) && fields == Serialised(Concat(groups))
    requires forall i :: 0 <= i < |groups| ==> Size(groups[i]) <= FRAG_MAX
    ensures |frames| == |groups|
    ensures forall i :: 0 <= i < |groups| ==>
              |frames[i]| <= 255 && frames[i] == [RESPONSE, cmd, seqNo, status, |groups|, i] + Serialised(groups[i])
  {
    hide Serialised, Concat;
    frames := [];
    var pos, i := 0, 0;
    assert groups[0..] == groups && fields[0..] == fields;
    while i < |sizes|
      invariant 0 <= i <= |sizes| && |frames| == i && 0 <= pos <= |fields|
      invariant fields[pos..] == Serialised(Concat(groups[i..]))
      invariant forall k :: 0 <= k < i ==>
                  |frames[k]| <= 255 && frames[k] == [RESPONSE, cmd, seqNo, status, |groups|, k] + Serialised(groups[k])
    {
      TakeGroup(groups, i, fields[pos..]);
      var chunk := sizes[i];
      SubSlice(fields, pos, 0, chunk);
      frames := frames + [[RESPONSE, cmd, seqNo, status, |sizes|, i] + fields[pos..pos + chunk]];
      SubSlice(fields, pos, chunk, chunk);
      pos := pos + chunk;
      i := i + 1;
    }
  }

  lemma EmptyResponse(fs: seq<Field>)
    requires Small(fs) && Serialised(fs) == []
    ensures fs == [] && Fragments(fs) == [[]] && Sizes([[]]) == [0]
  {
    NoFields();
  }

  lemma SomeFragment(fs: seq<Field>)
    requires Small(fs) && |fs| > 0
    ensures |Greedy(fs)| > 0
  {
  }

  lemma FragmentsSplit(fs: seq<Field>)
    requires Small(fs)
    ensures IsSplit(Fragments(fs), fs)
  {
    if |fs| == 0 {
      var one: seq<seq<Field>> := [[]];
      assert one[1..] == [] && Concat(one) == [];
      NoFields();
    } else {
      GreedyIsSplit(fs);
    }
  }

  lemma TakeGroup(groups: seq<seq<Field>>, i: nat, s: seq<byte>)
    requires i < |groups| && s == Serialised(Concat(groups[i..]))
    ensures var n := Size(groups[i]);
            n <= |s| && s[..n] == Serialised(groups[i]) && s[n..] == Serialised(Concat(groups[i + 1..]))
  {
    hide Serialised;
    assert groups[i..][0] == groups[i] && groups[i..][1..] == groups[i + 1..];
    SerialisedAppend(groups[i], Concat(groups[i + 1..]));
  }
}
