/** The line diff an operator approves a policy change from (cmd/parzival/diff.go). */
module Diff {
  import opened Bytes

  datatype OpKind = Equal | Delete | Insert

  /** aLine and bLine are 1-based line numbers, 0 on a side the line is missing from. */
  datatype Op = Op(kind: OpKind, text: Text, aLine: nat, bLine: nat)

  // ----- Edit scripts -----

  /** The lines a script takes from a: all but the inserted ones. */
  function ASide(ops: seq<Op>): seq<Text> {
    if ops == [] then []
    else
      var op := ops[|ops| - 1];
      ASide(ops[..|ops| - 1]) + if op.kind == Insert then [] else [op.text]
  }

  function BSide(ops: seq<Op>): seq<Text> {
    if ops == [] then []
    else
      var op := ops[|ops| - 1];
      BSide(ops[..|ops| - 1]) + if op.kind == Delete then [] else [op.text]
  }

  function EqualLines(ops: seq<Op>): seq<Text> {
    if ops == [] then []
    else
      var op := ops[|ops| - 1];
      EqualLines(ops[..|ops| - 1]) + if op.kind == Equal then [op.text] else []
  }

  /** Each line carries its number on the sides it stands on, counted from 1. */
  ghost predicate Numbered(ops: seq<Op>) {
    forall k :: 0 <= k < |ops| ==>
      && ops[k].aLine == (if ops[k].kind == Insert then 0 else |ASide(ops[..k])| + 1)
      && ops[k].bLine == (if ops[k].kind == Delete then 0 else |BSide(ops[..k])| + 1)
  }

  ghost predicate IsScript(ops: seq<Op>, a: seq<Text>, b: seq<Text>) {
    ASide(ops) == a && BSide(ops) == b && Numbered(ops)
  }

  lemma SidesOfOneMore(ops: seq<Op>, op: Op)
    ensures ASide(ops + [op]) == ASide(ops) + if op.kind == Insert then [] else [op.text]
    ensures BSide(ops + [op]) == BSide(ops) + if op.kind == Delete then [] else [op.text]
    ensures EqualLines(ops + [op]) == EqualLines(ops) + if op.kind == Equal then [op.text] else []
  {
  }

  lemma NumberedOneMore(ops: seq<Op>, op: Op)
    requires Numbered(ops)
    requires op.aLine == if op.kind == Insert then 0 else |ASide(ops)| + 1
    requires op.bLine == if op.kind == Delete then 0 else |BSide(ops)| + 1
    ensures Numbered(ops + [op])
  {
    forall k | 0 <= k < |ops| ensures (ops + [op])[..k] == ops[..k] {
    }
    assert (ops + [op])[..|ops|] == ops;
  }

  // ----- Longest common subsequences -----

  function Max(x: nat, y: nat): nat { if x >= y then x else y }

  /** The table's entry for the lines of a from i and of b from j. */
  function Lcs(a: seq<Text>, b: seq<Text>, i: nat, j: nat): nat
    requires i <= |a| && j <= |b|
    decreases |a| - i + |b| - j
  {
    if i == |a| || j == |b| then 0
    else if a[i] == b[j] then Lcs(a, b, i + 1, j + 1) + 1
    else Max(Lcs(a, b, i + 1, j), Lcs(a, b, i, j + 1))
  }

  ghost predicate IsSubsequence(c: seq<Text>, a: seq<Text>) {
    || c == []
    || (a != [] && ((c[0] == a[0] && IsSubsequence(c[1..], a[1..])) || IsSubsequence(c, a[1..])))
  }

  lemma {:induction false} SubsequenceTail(c: seq<Text>, a: seq<Text>)
    requires c != [] && IsSubsequence(c, a)
    ensures IsSubsequence(c[1..], a) && (a != [] ==> IsSubsequence(c[1..], a[1..]))
  {
    if c[0] == a[0] && IsSubsequence(c[1..], a[1..]) {
      if c[1..] != [] {
        assert IsSubsequence(c[1..], a);
      }
    } else {
      SubsequenceTail(c, a[1..]);
      if c[1..] != [] {
        assert IsSubsequence(c[1..], a);
      }
    }
  }

  /** No common subsequence is longer than the table says. */
  lemma {:induction false} LcsIsUpperBound(c: seq<Text>, a: seq<Text>, b: seq<Text>, i: nat, j: nat)
    requires i <= |a| && j <= |b| && IsSubsequence(c, a[i..]) && IsSubsequence(c, b[j..])
    ensures |c| <= Lcs(a, b, i, j)
    decreases |a| - i + |b| - j
  {
    if c != [] {
      assert a[i..][1..] == a[i + 1..] && b[j..][1..] == b[j + 1..];
      if a[i] == b[j] {
        SubsequenceTail(c, a[i..]);
        SubsequenceTail(c, b[j..]);
        LcsIsUpperBound(c[1..], a, b, i + 1, j + 1);
      } else if c[0] != a[i] {
        LcsIsUpperBound(c, a, b, i + 1, j);
      } else {
        LcsIsUpperBound(c, a, b, i, j + 1);
      }
    }
  }

  lemma {:induction false} SubsequenceOneMore(c: seq<Text>, a: seq<Text>, line: Text)
    requires IsSubsequence(c, a)
    ensures IsSubsequence(c, a + [line]) && IsSubsequence(c + [line], a + [line])
  {
    if a == [] {
      assert c + [line] == [line] && a + [line] == [line];
      assert [line][1..] == [];
    } else {
      assert (a + [line])[1..] == a[1..] + [line];
      if c == [] {
        SubsequenceOneMore(c, a[1..], line);
      } else if c[0] == a[0] && IsSubsequence(c[1..], a[1..]) {
        SubsequenceOneMore(c[1..], a[1..], line);
        assert (c + [line])[1..] == c[1..] + [line];
      } else {
        SubsequenceOneMore(c, a[1..], line);
      }
    }
  }

  /** The lines a script keeps are a common subsequence of both sides. */
  lemma {:induction false} EqualLinesAreCommon(ops: seq<Op>)
    ensures IsSubsequence(EqualLines(ops), ASide(ops)) && IsSubsequence(EqualLines(ops), BSide(ops))
    ensures |ASide(ops)| + |BSide(ops)| == |ops| + |EqualLines(ops)|
  {
    if ops != [] {
      var rest, op := ops[..|ops| - 1], ops[|ops| - 1];
      EqualLinesAreCommon(rest);
      SubsequenceOneMore(EqualLines(rest), ASide(rest), op.text);
      SubsequenceOneMore(EqualLines(rest), BSide(rest), op.text);
      match op.kind {
        case Equal =>
        case Delete => assert EqualLines(ops) == EqualLines(rest) && BSide(ops) == BSide(rest);
        case Insert => assert EqualLines(ops) == EqualLines(rest) && ASide(ops) == ASide(rest);
      }
    }
  }

  // ----- The edit script -----

  lemma LcsAtEnd(a: seq<Text>, b: seq<Text>)
    ensures forall x :: 0 <= x <= |a| ==> Lcs(a, b, x, |b|) == 0
    ensures forall y :: 0 <= y <= |b| ==> Lcs(a, b, |a|, y) == 0
  {
  }

  lemma LcsStep(a: seq<Text>, b: seq<Text>, i: nat, j: nat)
    requires i < |a| && j < |b|
    ensures Lcs(a, b, i, j)
         == if a[i] == b[j] then Lcs(a, b, i + 1, j + 1) + 1 else Max(Lcs(a, b, i + 1, j), Lcs(a, b, i, j + 1))
  {
  }

  /** diffOps, first half: the table, filled from the last lines backwards. */
  method LcsTable(a: seq<Text>, b: seq<Text>) returns (lcs: array2<nat>)
    ensures fresh(lcs) && lcs.Length0 == |a| + 1 && lcs.Length1 == |b| + 1
    ensures forall x, y :: 0 <= x <= |a| && 0 <= y <= |b| ==> lcs[x, y] == Lcs(a, b, x, y)
  {
    lcs := new nat[|a| + 1, |b| + 1]((_, _) => 0);
    LcsAtEnd(a, b);
    hide Lcs;
    for i := |a| downto 0
      invariant forall x, y :: i <= x <= |a| && 0 <= y <= |b| ==> lcs[x, y] == Lcs(a, b, x, y)
      invariant forall x, y :: 0 <= x < i && 0 <= y <= |b| ==> lcs[x, y] == 0
    {
      FillRow(lcs, a, b, i);
    }
  }

  /** Row i of the table, from the row after it. */
  method FillRow(lcs: array2<nat>, a: seq<Text>, b: seq<Text>, i: nat)
    requires lcs.Length0 == |a| + 1 && lcs.Length1 == |b| + 1 && i < |a|
    requires forall x, y :: x == i + 1 && 0 <= y <= |b| ==> lcs[x, y] == Lcs(a, b, x, y)
    requires lcs[i, |b|] == 0
    modifies lcs
    ensures forall y :: 0 <= y <= |b| ==> lcs[i, y] == Lcs(a, b, i, y)
    ensures forall x, y :: 0 <= x <= |a| && 0 <= y <= |b| && x != i ==> lcs[x, y] == old(lcs[x, y])
  {
    LcsAtEnd(a, b);
    hide Lcs;
    for j := |b| downto 0
      invariant forall y :: j <= y <= |b| ==> lcs[i, y] == Lcs(a, b, i, y)
      invariant forall x, y :: 0 <= x <= |a| && 0 <= y <= |b| && x != i ==> lcs[x, y] == old(lcs[x, y])
    {
      LcsStep(a, b, i, j);
      if a[i] == b[j] {
        lcs[i, j] := lcs[i + 1, j + 1] + 1;
      } else {
        lcs[i, j] := Max(lcs[i + 1, j], lcs[i, j + 1]);
      }
    }
  }

  /** A script for the first i and j lines that can still keep as many lines as the
      whole texts share. */
  ghost predicate Walking(ops: seq<Op>, a: seq<Text>, i: int, b: seq<Text>, j: int) {
    && 0 <= i <= |a| && 0 <= j <= |b|
    && IsScript(ops, a[..i], b[..j])
    && |EqualLines(ops)| + Lcs(a, b, i, j) == Lcs(a, b, 0, 0)
  }

  /** diffOps, second half: the greedy walk through the table. */
  method DiffOps(a: seq<Text>, b: seq<Text>) returns (ops: seq<Op>)
    ensures IsScript(ops, a, b)
    ensures |EqualLines(ops)| == Lcs(a, b, 0, 0)
  {
    hide IsScript;
    var lcs := LcsTable(a, b);
    var n, m := |a|, |b|;
    ops := [];
    var i, j := 0, 0;
    WalkStarts(a, b);
    while i < n && j < m
      invariant Walking(ops, a, i, b, j)
      modifies {}
      decreases n - i + m - j
    {
      if a[i] == b[j] {
        EqualStep(ops, a, i, b, j);
        ops := ops + [Op(Equal, a[i], i + 1, j + 1)];
        i := i + 1;
        j := j + 1;
      } else if lcs[i + 1, j] >= lcs[i, j + 1] {
        assert Lcs(a, b, i + 1, j) >= Lcs(a, b, i, j + 1);
        DeleteStep(ops, a, i, b, j);
        ops := ops + [Op(Delete, a[i], i + 1, 0)];
        i := i + 1;
      } else {
        assert Lcs(a, b, i + 1, j) < Lcs(a, b, i, j + 1);
        InsertStep(ops, a, i, b, j);
        ops := ops + [Op(Insert, b[j], 0, j + 1)];
        j := j + 1;
      }
    }
    while i < n
      invariant Walking(ops, a, i, b, j) && (i < n ==> j == m)
    {
      DeleteStep(ops, a, i, b, j);
      ops := ops + [Op(Delete, a[i], i + 1, 0)];
      i := i + 1;
    }
    while j < m
      invariant Walking(ops, a, i, b, j) && i == n
    {
      InsertStep(ops, a, i, b, j);
      ops := ops + [Op(Insert, b[j], 0, j + 1)];
      j := j + 1;
    }
    assert a[..n] == a && b[..m] == b;
  }

  lemma WalkStarts(a: seq<Text>, b: seq<Text>)
    ensures Walking([], a, 0, b, 0)
  {
  }

  lemma EqualStep(ops: seq<Op>, a: seq<Text>, i: nat, b: seq<Text>, j: nat)
    requires Walking(ops, a, i, b, j) && i < |a| && j < |b| && a[i] == b[j]
    ensures Walking(ops + [Op(Equal, a[i], i + 1, j + 1)], a, i + 1, b, j + 1)
  {
    hide Lcs, ASide, BSide, EqualLines, Numbered;
    var op := Op(Equal, a[i], i + 1, j + 1);
    SidesOfOneMore(ops, op);
    NumberedOneMore(ops, op);
    LcsStep(a, b, i, j);
    assert a[..i + 1] == a[..i] + [a[i]] && b[..j + 1] == b[..j] + [b[j]];
  }

  lemma DeleteStep(ops: seq<Op>, a: seq<Text>, i: nat, b: seq<Text>, j: nat)
    requires Walking(ops, a, i, b, j) && i < |a|
    requires j < |b| ==> a[i] != b[j] && Lcs(a, b, i + 1, j) >= Lcs(a, b, i, j + 1)
    ensures Walking(ops + [Op(Delete, a[i], i + 1, 0)], a, i + 1, b, j)
  {
    hide Lcs, ASide, BSide, EqualLines, Numbered;
    var op := Op(Delete, a[i], i + 1, 0);
    SidesOfOneMore(ops, op);
    NumberedOneMore(ops, op);
    if j < |b| {
      LcsStep(a, b, i, j);
    } else {
      LcsAtEnd(a, b);
    }
    assert a[..i + 1] == a[..i] + [a[i]];
  }

  lemma InsertStep(ops: seq<Op>, a: seq<Text>, i: nat, b: seq<Text>, j: nat)
    requires Walking(ops, a, i, b, j) && j < |b|
    requires i < |a| ==> a[i] != b[j] && Lcs(a, b, i + 1, j) < Lcs(a, b, i, j + 1)
    ensures Walking(ops + [Op(Insert, b[j], 0, j + 1)], a, i, b, j + 1)
  {
    hide Lcs, ASide, BSide, EqualLines, Numbered;
    var op := Op(Insert, b[j], 0, j + 1);
    SidesOfOneMore(ops, op);
    NumberedOneMore(ops, op);
    if i < |a| {
      LcsStep(a, b, i, j);
    } else {
      LcsAtEnd(a, b);
    }
    assert b[..j + 1] == b[..j] + [b[j]];
  }

  /** The script keeps as many lines as any common subsequence has, so no script from a
      to b keeps more or is shorter. */
  lemma ScriptIsOptimal(ops: seq<Op>, a: seq<Text>, b: seq<Text>, c: seq<Text>, other: seq<Op>)
    requires IsScript(ops, a, b) && |EqualLines(ops)| == Lcs(a, b, 0, 0)
    ensures IsSubsequence(EqualLines(ops), a) && IsSubsequence(EqualLines(ops), b)
    ensures IsSubsequence(c, a) && IsSubsequence(c, b) ==> |c| <= |EqualLines(ops)|
    ensures ASide(other) == a && BSide(other) == b ==> |ops| <= |other|
  {
    EqualLinesAreCommon(ops);
    EqualLinesAreCommon(other);
    assert a[0..] == a && b[0..] == b;
    if IsSubsequence(c, a) && IsSubsequence(c, b) {
      LcsIsUpperBound(c, a, b, 0, 0);
    }
    if ASide(other) == a && BSide(other) == b {
      LcsIsUpperBound(EqualLines(other), a, b, 0, 0);
    }
  }

  // ----- Whether anything changed -----

  predicate HasChange(ops: seq<Op>) { exists k :: 0 <= k < |ops| && ops[k].kind != Equal }

  lemma {:induction false} LcsOfEqualTexts(a: seq<Text>, i: nat)
    requires i <= |a|
    ensures Lcs(a, a, i, i) == |a| - i
    decreases |a| - i
  {
    if i < |a| {
      LcsOfEqualTexts(a, i + 1);
    }
  }

  lemma {:induction false} UnchangedSides(ops: seq<Op>)
    ensures |EqualLines(ops)| <= |ops|
    ensures !HasChange(ops) ==> ASide(ops) == BSide(ops)
    ensures !HasChange(ops) <==> |EqualLines(ops)| == |ops|
  {
    if ops != [] {
      var rest, op := ops[..|ops| - 1], ops[|ops| - 1];
      UnchangedSides(rest);
      assert ops == rest + [op];
      if HasChange(rest) {
        var k :| 0 <= k < |rest| && rest[k].kind != Equal;
        assert ops[k].kind != Equal;
      }
    }
  }

  /** The optimal script changes something exactly when the two texts differ. */
  lemma ChangeMeansDifferent(ops: seq<Op>, a: seq<Text>, b: seq<Text>)
    requires IsScript(ops, a, b) && |EqualLines(ops)| == Lcs(a, b, 0, 0)
    ensures HasChange(ops) <==> a != b
  {
    UnchangedSides(ops);
    EqualLinesAreCommon(ops);
    if a == b {
      LcsOfEqualTexts(a, 0);
    }
  }

  // ----- Hunks -----

  datatype Span = Span(from: nat, to: nat)

  predicate ChangedAt(ops: seq<Op>, k: int) { 0 <= k < |ops| && ops[k].kind != Equal }

  ghost predicate AllEqual(ops: seq<Op>, from: int, to: int) {
    forall k :: from <= k < to ==> !ChangedAt(ops, k)
  }

  function Min(x: int, y: int): int { if x <= y then x else y }

  /** A span runs from `context` lines before its first change to `context` lines after
      its last, and inside it no run of equal lines is longer than two contexts. */
  ghost predicate IsHunk(ops: seq<Op>, context: nat, h: Span, first: nat, last: nat) {
    && first <= last && ChangedAt(ops, first) && ChangedAt(ops, last)
    && h.from == Max(first, context) - context
    && h.to == Min(last + 1 + context, |ops|)
    && AllEqual(ops, h.from, first)
    && AllEqual(ops, last + 1, Min(last + 2 + 2 * context, |ops|))
    && ShortGaps(ops, context, first, last)
  }

  /** More than two contexts of equal lines from k on. */
  ghost predicate LongRun(ops: seq<Op>, context: nat, k: int) { AllEqual(ops, k, k + 2 * context + 1) }

  ghost predicate ShortGaps(ops: seq<Op>, context: nat, first: int, last: int) {
    forall k :: first <= k && k + 2 * context < last ==> !LongRun(ops, context, k)
  }

  ghost predicate HasBounds(ops: seq<Op>, context: nat, h: Span) {
    exists first: nat, last: nat :: IsHunk(ops, context, h, first, last)
  }

  /** The hunks of the first n lines: each as wide as it should be, strictly apart, and
      together holding every change. */
  ghost predicate AreHunks(ops: seq<Op>, context: nat, hs: seq<Span>, n: int) {
    && (forall k :: 0 <= k < |hs| ==> HasBounds(ops, context, hs[k]))
    && (forall k :: 0 <= k < |hs| - 1 ==> hs[k].to < hs[k + 1].from)
    && (forall c :: 0 <= c < n && ChangedAt(ops, c) ==> InSomeHunk(hs, c))
  }

  ghost predicate InSomeHunk(hs: seq<Span>, c: int) {
    exists k :: 0 <= k < |hs| && hs[k].from <= c < hs[k].to
  }

  lemma ExtendRun(ops: seq<Op>, context: nat, first: int, last: int, next: int)
    requires first <= last < next <= last + 1 + 2 * context && ChangedAt(ops, last)
    requires ShortGaps(ops, context, first, last)
    ensures ShortGaps(ops, context, first, next)
  {
  }

  /** The inner loops of hunks: the end of the run of changes that starts at i. */
  method RunEnd(ops: seq<Op>, context: nat, i: nat) returns (to: nat)
    requires ChangedAt(ops, i)
    ensures i < to <= |ops| && ChangedAt(ops, to - 1)
    ensures ShortGaps(ops, context, i, to - 1)
    ensures AllEqual(ops, to, Min(to + 1 + 2 * context, |ops|))
  {
    to := i;
    ghost var last: int := i;
    while to < |ops|
      invariant i <= last <= to <= last + 1 && to <= |ops| && ChangedAt(ops, last)
      invariant ShortGaps(ops, context, i, last)
      decreases |ops| - to
    {
      if ops[to].kind != Equal {
        if to > last {
          ExtendRun(ops, context, i, last, to);
          last := to;
        }
        to := to + 1;
        continue;
      }
      var gap := 0;
      while to + gap < |ops| && ops[to + gap].kind == Equal
        invariant 0 <= gap <= |ops| - to
        invariant AllEqual(ops, to, to + gap)
      {
        gap := gap + 1;
      }
      if to + gap >= |ops| || gap > context * 2 {
        return;
      }
      ExtendRun(ops, context, i, last, to + gap);
      to := to + gap;
      last := to;
    }
  }

  method Hunks(ops: seq<Op>, context: nat) returns (hs: seq<Span>)
    ensures AreHunks(ops, context, hs, |ops|)
  {
    hide HasBounds, ShortGaps;
    hs := [];
    var i := 0;
    while i < |ops|
      invariant 0 <= i <= |ops|
      invariant AreHunks(ops, context, hs, i)
      invariant AllEqual(ops, if hs == [] then 0 else hs[|hs| - 1].to, i)
      invariant hs != [] ==> hs[|hs| - 1].to <= i
    {
      if ops[i].kind == Equal {
        EqualLinePassed(ops, context, hs, i);
        i := i + 1;
        continue;
      }
      var from := Max(i, context) - context;
      var end := RunEnd(ops, context, i);
      var to := Min(end + context, |ops|);
      if hs != [] {
        HunksStayApart(ops, context, hs[|hs| - 1], i);
      }
      if |hs| > 0 && from <= hs[|hs| - 1].to {
        // The merge branch: two successive hunks never touch.
        assert false;
      } else {
        NewHunkIsWide(ops, context, if hs == [] then 0 else hs[|hs| - 1].to, i, end - 1);
        HunkAppended(ops, context, hs, i, Span(from, to));
        hs := hs + [Span(from, to)];
      }
      i := to;
    }
  }

  /** A change met after a hunk lies further from its last change than two contexts. */
  lemma HunksStayApart(ops: seq<Op>, context: nat, h: Span, i: nat)
    requires HasBounds(ops, context, h) && h.to <= i && ChangedAt(ops, i)
    ensures h.to < Max(i, context) - context
  {
  }

  lemma HunkAppended(ops: seq<Op>, context: nat, hs: seq<Span>, i: nat, h: Span)
    requires AreHunks(ops, context, hs, i) && HasBounds(ops, context, h)
    requires h.from <= i <= h.to && (hs != [] ==> hs[|hs| - 1].to < h.from)
    ensures AreHunks(ops, context, hs + [h], h.to)
  {
    hide HasBounds, InSomeHunk;
    var now := hs + [h];
    forall c | 0 <= c < h.to && ChangedAt(ops, c) ensures InSomeHunk(now, c) {
      OneHunkMore(hs, h, c);
    }
  }

  lemma OneHunkMore(hs: seq<Span>, h: Span, c: int)
    requires InSomeHunk(hs, c) || h.from <= c < h.to
    ensures InSomeHunk(hs + [h], c)
  {
    var now := hs + [h];
    if h.from <= c < h.to {
      assert now[|hs|] == h;
    } else {
      var k :| 0 <= k < |hs| && hs[k].from <= c < hs[k].to;
      assert now[k] == hs[k];
    }
  }

  lemma NewHunkIsWide(ops: seq<Op>, context: nat, before: nat, i: nat, last: nat)
    requires ChangedAt(ops, i) && i <= last && ChangedAt(ops, last) && ShortGaps(ops, context, i, last)
    requires AllEqual(ops, last + 1, Min(last + 2 + 2 * context, |ops|))
    requires AllEqual(ops, before, i) && before <= Max(i, context) - context
    ensures HasBounds(ops, context, Span(Max(i, context) - context, Min(last + 1 + context, |ops|)))
  {
    assert IsHunk(ops, context, Span(Max(i, context) - context, Min(last + 1 + context, |ops|)), i, last);
  }

  lemma EqualLinePassed(ops: seq<Op>, context: nat, hs: seq<Span>, i: nat)
    requires AreHunks(ops, context, hs, i) && i < |ops| && ops[i].kind == Equal
    ensures AreHunks(ops, context, hs, i + 1)
  {
  }

  // ----- Applying the hunks -----

  /** The numbers in a hunk's header. */
  datatype Range = Range(aStart: nat, aLen: nat, bStart: nat, bLen: nat)

  /** A hunk as it is printed: its header and its lines. */
  datatype Hunk = Hunk(range: Range, ops: seq<Op>)

  /** The start and length of a hunk on each side. A side without lines borrows the other
      side's start. */
  function RangeOf(aBefore: nat, bBefore: nat, ops: seq<Op>): Range {
    Range(if ASide(ops) == [] then bBefore + 1 else aBefore + 1, |ASide(ops)|,
          if BSide(ops) == [] then aBefore + 1 else bBefore + 1, |BSide(ops)|)
  }

  function HunkOf(ops: seq<Op>, h: Span): Hunk
    requires h.from <= h.to <= |ops|
  {
    Hunk(RangeOf(|ASide(ops[..h.from])|, |BSide(ops[..h.from])|, ops[h.from..h.to]), ops[h.from..h.to])
  }

  /** hunkRange, on the lines of a numbered script from one place to another. */
  method HunkRange(part: seq<Op>, ghost before: seq<Op>, ghost after: seq<Op>) returns (r: Range)
    requires part != [] && Numbered(before + part + after)
    ensures r == RangeOf(|ASide(before)|, |BSide(before)|, part)
  {
    var aStart, aLen, bStart, bLen := 0, 0, 0, 0;
    hide *;
    NoSides();
    assert part[..0] == [];
    for k := 0 to |part|
      invariant aLen == |ASide(part[..k])| && aStart == if aLen == 0 then 0 else |ASide(before)| + 1
      invariant bLen == |BSide(part[..k])| && bStart == if bLen == 0 then 0 else |BSide(before)| + 1
    {
      NumberedPart(before, part, after, k);
      assert part[..k + 1] == part[..k] + [part[k]];
      SidesOfOneMore(part[..k], part[k]);
      if part[k].aLine > 0 {
        if aStart == 0 {
          aStart := part[k].aLine;
        }
        aLen := aLen + 1;
      }
      if part[k].bLine > 0 {
        if bStart == 0 {
          bStart := part[k].bLine;
        }
        bLen := bLen + 1;
      }
    }
    assert part[..|part|] == part;
    NumberedPart(before, part, after, 0);
    SidesOfFirst(part);
    if aStart == 0 {
      aStart := part[0].bLine;
    }
    if bStart == 0 {
      bStart := part[0].aLine;
    }
    r := Range(aStart, aLen, bStart, bLen);
    RangeIs(|ASide(before)|, |BSide(before)|, part, r);
  }

  lemma RangeIs(aBefore: nat, bBefore: nat, ops: seq<Op>, r: Range)
    requires r.aLen == |ASide(ops)| && r.aStart == if r.aLen == 0 then bBefore + 1 else aBefore + 1
    requires r.bLen == |BSide(ops)| && r.bStart == if r.bLen == 0 then aBefore + 1 else bBefore + 1
    ensures r == RangeOf(aBefore, bBefore, ops)
  {
  }

  lemma NoSides()
    ensures ASide([]) == [] && BSide([]) == []
  {
  }

  /** The k-th line of a part carries its numbers in the whole script. */
  lemma NumberedPart(before: seq<Op>, part: seq<Op>, after: seq<Op>, k: nat)
    requires k < |part| && Numbered(before + part + after)
    ensures part[k].aLine == if part[k].kind == Insert then 0 else |ASide(before)| + |ASide(part[..k])| + 1
    ensures part[k].bLine == if part[k].kind == Delete then 0 else |BSide(before)| + |BSide(part[..k])| + 1
  {
    hide ASide, BSide;
    var ops := before + part + after;
    assert ops[|before| + k] == part[k];
    assert ops[..|before| + k] == before + part[..k];
    SidesOfParts(before, part[..k]);
  }

  lemma SidesOfFirst(part: seq<Op>)
    requires part != []
    ensures ASide(part) == [] ==> part[0].kind == Insert
    ensures BSide(part) == [] ==> part[0].kind == Delete
    ensures ASide(part[..0]) == [] && BSide(part[..0]) == []
  {
    hide ASide, BSide;
    assert part == [part[0]] + part[1..] && part[..0] == [] && [] + [part[0]] == [part[0]];
    SidesOfParts([part[0]], part[1..]);
    SidesOfOneMore([], part[0]);
    NoSides();
  }

  /** Where a hunk without lines of a is put. The header should say after which line of a,
      and says so exactly when b is one line behind a there. */
  lemma InsertOnlyStart(ops: seq<Op>, h: Span)
    requires h.from < h.to <= |ops| && ASide(ops[h.from..h.to]) == []
    ensures HunkOf(ops, h).range.aStart == |ASide(ops[..h.from])| <==>
              |BSide(ops[..h.from])| + 1 == |ASide(ops[..h.from])|
  {
  }

  /** With any context at all such a hunk is the whole script, a is empty, and the header
      says 1 where the place before the first line is 0. */
  lemma InsertOnlyMeansEmpty(ops: seq<Op>, context: nat, h: Span)
    requires context >= 1 && HasBounds(ops, context, h) && h.to <= |ops|
    requires ASide(ops[h.from..h.to]) == []
    ensures h == Span(0, |ops|) && ASide(ops) == [] && HunkOf(ops, h).range.aStart == 1
  {
    var part := ops[h.from..h.to];
    forall k | h.from <= k < h.to ensures ChangedAt(ops, k) {
      OnlyInserts(part, k - h.from);
    }
    var first: nat, last: nat :| IsHunk(ops, context, h, first, last);
    WholeScript(ops, context, h, first, last);
    hide ASide, IsHunk;
    assert ops[0..|ops|] == ops && ops[..0] == [];
  }

  lemma WholeScript(ops: seq<Op>, context: nat, h: Span, first: nat, last: nat)
    requires context >= 1 && IsHunk(ops, context, h, first, last)
    requires forall k :: h.from <= k < h.to ==> ChangedAt(ops, k)
    ensures h == Span(0, |ops|)
  {
    assert h.from == first || ChangedAt(ops, first - 1);
    assert h.to == last + 1 || ChangedAt(ops, last + 1);
  }

  lemma {:induction false} OnlyInserts(part: seq<Op>, k: nat)
    requires k < |part| && ASide(part) == []
    ensures part[k].kind == Insert
  {
    if k < |part| - 1 {
      OnlyInserts(part[..|part| - 1], k);
    }
  }

  /** Reads a from line pos on, with done lines of b written, by the hunks' headers and
      lines alone: copies up to the hunk's start, on whichever side it has lines, checks
      every context and deleted line against a, and writes the hunk's b side. */
  function Patch(a: seq<Text>, diff: seq<Hunk>, pos: nat, done: nat): Option<seq<Text>>
    requires pos <= |a|
  {
    if diff == [] then Some(a[pos..])
    else
      var h := diff[0];
      var start := if h.range.aLen > 0 then h.range.aStart - 1 else pos + h.range.bStart - 1 - done;
      var end := start + h.range.aLen;
      if !(pos <= start && end <= |a| && a[start..end] == ASide(h.ops)) then None
      else
        match Patch(a, diff[1..], end, done + start - pos + h.range.bLen)
        case None => None
        case Some(rest) => Some(a[pos..start] + BSide(h.ops) + rest)
  }

  lemma PartsOneMore(x: seq<Op>, rest: seq<Op>, op: Op)
    requires ASide(x + rest) == ASide(x) + ASide(rest) && BSide(x + rest) == BSide(x) + BSide(rest)
    ensures ASide(x + (rest + [op])) == ASide(x) + ASide(rest + [op])
    ensures BSide(x + (rest + [op])) == BSide(x) + BSide(rest + [op])
  {
    hide ASide, BSide;
    Regroup(x, rest, [op]);
    SidesOfOneMore(x + rest, op);
    SidesOfOneMore(rest, op);
    var aLine: seq<Text> := if op.kind == Insert then [] else [op.text];
    var bLine: seq<Text> := if op.kind == Delete then [] else [op.text];
    Regroup(ASide(x), ASide(rest), aLine);
    Regroup(BSide(x), BSide(rest), bLine);
  }

  lemma {:induction false} SidesOfParts(x: seq<Op>, y: seq<Op>)
    ensures ASide(x + y) == ASide(x) + ASide(y) && BSide(x + y) == BSide(x) + BSide(y)
  {
    if y == [] {
      assert x + y == x;
    } else {
      hide ASide, BSide;
      var rest, op := y[..|y| - 1], y[|y| - 1];
      SidesOfParts(x, rest);
      PartsOneMore(x, rest, op);
      assert y == rest + [op];
    }
  }

  /** Spans in order, from e on, that hold every change from e on. */
  ghost predicate HoldChanges(ops: seq<Op>, hs: seq<Span>, e: nat) {
    && (forall k :: 0 <= k < |hs| ==> e <= hs[k].from <= hs[k].to <= |ops|)
    && (forall k, l :: 0 <= k < l < |hs| ==> hs[k].to <= hs[l].from)
    && (forall c :: e <= c && ChangedAt(ops, c) ==> InSomeHunk(hs, c))
  }

  function HunksOf(ops: seq<Op>, hs: seq<Span>): (diff: seq<Hunk>)
    requires forall k :: 0 <= k < |hs| ==> hs[k].from <= hs[k].to <= |ops|
    ensures |diff| == |hs| && forall k :: 0 <= k < |hs| ==> diff[k] == HunkOf(ops, hs[k])
  {
    seq(|hs|, k requires 0 <= k < |hs| => HunkOf(ops, hs[k]))
  }

  lemma EqualStretch(ops: seq<Op>, hs: seq<Span>, e: nat, to: nat)
    requires e <= to <= |ops| && HoldChanges(ops, hs, e)
    requires forall k :: 0 <= k < |hs| ==> to <= hs[k].from
    ensures ASide(ops[e..to]) == BSide(ops[e..to])
  {
    var part := ops[e..to];
    forall k | 0 <= k < |part| ensures part[k].kind == Equal {
      assert ChangedAt(ops, e + k) ==> InSomeHunk(hs, e + k);
    }
    UnchangedSides(part);
  }

  lemma {:induction false} PatchFrom(ops: seq<Op>, a: seq<Text>, hs: seq<Span>, e: nat)
    requires a == ASide(ops) && e <= |ops| && HoldChanges(ops, hs, e)
    requires forall k :: 0 <= k < |hs| ==> hs[k].from < hs[k].to
    ensures |ASide(ops[..e])| <= |a|
    ensures Patch(a, HunksOf(ops, hs), |ASide(ops[..e])|, |BSide(ops[..e])|) == Some(BSide(ops[e..]))
    decreases |hs|
  {
    hide ASide, BSide, Patch, HunkOf, HunksOf;
    if hs == [] {
      NoHunks(ops, hs);
      EqualStretch(ops, hs, e, |ops|);
      assert ops[e..|ops|] == ops[e..];
      PatchEnd(ops, a, e);
    } else {
      EqualStretch(ops, hs, e, hs[0].from);
      RestHoldsChanges(ops, hs, e);
      PatchFrom(ops, a, hs[1..], hs[0].to);
      PatchStep(ops, a, hs[0], HunksOf(ops, hs[1..]), e);
      HunksOfFirst(ops, hs);
    }
  }

  lemma NoHunks(ops: seq<Op>, hs: seq<Span>)
    requires hs == []
    ensures HunksOf(ops, hs) == []
  {
  }

  lemma HunksOfFirst(ops: seq<Op>, hs: seq<Span>)
    requires hs != [] && forall k :: 0 <= k < |hs| ==> hs[k].from <= hs[k].to <= |ops|
    ensures HunksOf(ops, hs) == [HunkOf(ops, hs[0])] + HunksOf(ops, hs[1..])
  {
    hide HunkOf;
  }

  lemma PatchEnd(ops: seq<Op>, a: seq<Text>, e: nat)
    requires a == ASide(ops) && e <= |ops| && ASide(ops[e..]) == BSide(ops[e..])
    ensures |ASide(ops[..e])| <= |a|
    ensures Patch(a, [], |ASide(ops[..e])|, |BSide(ops[..e])|) == Some(BSide(ops[e..]))
  {
    hide ASide, BSide;
    assert ops == ops[..e] + ops[e..];
    SidesOfParts(ops[..e], ops[e..]);
  }

  /** One hunk, on the texts around it. */
  lemma PatchOne(h: Hunk, rest: seq<Hunk>, aDone: seq<Text>, aSkipped: seq<Text>, aAfter: seq<Text>, bDone: nat,
                 bAfter: seq<Text>)
    requires h.range == RangeOf(|aDone| + |aSkipped|, bDone + |aSkipped|, h.ops) && h.ops != []
    requires var a, end := aDone + aSkipped + ASide(h.ops) + aAfter, |aDone| + |aSkipped| + |ASide(h.ops)|;
             Patch(a, rest, end, bDone + |aSkipped| + |BSide(h.ops)|) == Some(bAfter)
    ensures Patch(aDone + aSkipped + ASide(h.ops) + aAfter, [h] + rest, |aDone|, bDone)
         == Some(aSkipped + BSide(h.ops) + bAfter)
  {
    hide *;
    RangeStarts(|aDone| + |aSkipped|, bDone + |aSkipped|, h.ops);
    MiddleParts(aDone, aSkipped, ASide(h.ops), aAfter);
    var a, start := aDone + aSkipped + ASide(h.ops) + aAfter, |aDone| + |aSkipped|;
    assert a[start..start + h.range.aLen] == ASide(h.ops) && a[|aDone|..start] == aSkipped;
    PatchUnfolds(a, h, rest, |aDone|, bDone, start);
  }

  lemma PatchUnfolds(a: seq<Text>, h: Hunk, rest: seq<Hunk>, pos: nat, done: nat, start: nat)
    requires pos <= start <= start + h.range.aLen <= |a| && a[start..start + h.range.aLen] == ASide(h.ops)
    requires start == if h.range.aLen > 0 then h.range.aStart - 1 else pos + h.range.bStart - 1 - done
    requires Patch(a, rest, start + h.range.aLen, done + start - pos + h.range.bLen).Some?
    ensures Patch(a, [h] + rest, pos, done) ==
              Some(a[pos..start] + BSide(h.ops)
                   + Patch(a, rest, start + h.range.aLen, done + start - pos + h.range.bLen).value)
  {
    hide ASide, BSide;
    assert ([h] + rest)[1..] == rest;
  }

  lemma PatchStep(ops: seq<Op>, a: seq<Text>, h: Span, rest: seq<Hunk>, e: nat)
    requires a == ASide(ops) && e <= h.from < h.to <= |ops|
    requires ASide(ops[e..h.from]) == BSide(ops[e..h.from])
    requires |ASide(ops[..h.to])| <= |a|
    requires Patch(a, rest, |ASide(ops[..h.to])|, |BSide(ops[..h.to])|) == Some(BSide(ops[h.to..]))
    ensures |ASide(ops[..e])| <= |a|
    ensures Patch(a, [HunkOf(ops, h)] + rest, |ASide(ops[..e])|, |BSide(ops[..e])|) == Some(BSide(ops[e..]))
  {
    hide ASide, BSide, Patch;
    assert ops[..e] + ops[e..h.from] == ops[..h.from];
    assert ops[..h.from] + ops[h.from..h.to] == ops[..h.to];
    assert ops[..h.to] + ops[h.to..] == ops;
    assert ops[e..h.from] + ops[h.from..h.to] + ops[h.to..] == ops[e..];
    PatchParts(a, ops[..e], ops[e..h.from], ops[h.from..h.to], ops[h.to..], HunkOf(ops, h), rest);
  }

  lemma PatchParts(a: seq<Text>, done: seq<Op>, skipped: seq<Op>, body: seq<Op>, after: seq<Op>, h: Hunk,
                   rest: seq<Hunk>)
    requires a == ASide(done + skipped + body + after) && body != [] && ASide(skipped) == BSide(skipped)
    requires h == Hunk(RangeOf(|ASide(done + skipped)|, |BSide(done + skipped)|, body), body)
    requires |ASide(done + skipped + body)| <= |a|
    requires Patch(a, rest, |ASide(done + skipped + body)|, |BSide(done + skipped + body)|) == Some(BSide(after))
    ensures |ASide(done)| <= |a|
    ensures Patch(a, [h] + rest, |ASide(done)|, |BSide(done)|) == Some(BSide(skipped + body + after))
  {
    SidesOfFour(done, skipped, body, after);
    hide *;
    PatchOne(h, rest, ASide(done), ASide(skipped), ASide(after), |BSide(done)|, BSide(after));
  }

  lemma RangeStarts(aBefore: nat, bBefore: nat, body: seq<Op>)
    requires body != []
    ensures var r := RangeOf(aBefore, bBefore, body);
            && r.aLen == |ASide(body)| && r.bLen == |BSide(body)|
            && (if r.aLen > 0 then r.aStart == aBefore + 1 else r.bStart == bBefore + 1)
  {
  }

  lemma RestHoldsChanges(ops: seq<Op>, hs: seq<Span>, e: nat)
    requires hs != [] && HoldChanges(ops, hs, e)
    ensures HoldChanges(ops, hs[1..], hs[0].to)
  {
  }

  lemma MiddleParts<T>(p: seq<T>, q: seq<T>, r: seq<T>, t: seq<T>)
    ensures var s := p + q + r + t;
            s[|p|..|p| + |q|] == q && s[|p| + |q|..|p| + |q| + |r|] == r
  {
  }

  /** A script in four parts: what is done, the lines before the next hunk, the hunk,
      and the rest. */
  lemma SidesOfFour(done: seq<Op>, skipped: seq<Op>, body: seq<Op>, after: seq<Op>)
    ensures ASide(done + skipped + body + after) == ASide(done) + ASide(skipped) + ASide(body) + ASide(after)
    ensures |ASide(done + skipped)| == |ASide(done)| + |ASide(skipped)|
    ensures |ASide(done + skipped + body)| == |ASide(done)| + |ASide(skipped)| + |ASide(body)|
    ensures |BSide(done + skipped)| == |BSide(done)| + |BSide(skipped)|
    ensures |BSide(done + skipped + body)| == |BSide(done)| + |BSide(skipped)| + |BSide(body)|
    ensures BSide(skipped + body + after) == BSide(skipped) + BSide(body) + BSide(after)
  {
    SidesOfParts(done, skipped);
    SidesOfParts(done + skipped, body);
    SidesOfParts(done + skipped + body, after);
    SidesOfParts(skipped, body);
    SidesOfParts(skipped + body, after);
    hide ASide, BSide;
  }

  lemma {:induction false} HunksInOrder(ops: seq<Op>, context: nat, hs: seq<Span>, k: nat, l: nat)
    requires AreHunks(ops, context, hs, |ops|) && k < l < |hs|
    ensures hs[k].to <= hs[l].from
    decreases l
  {
    assert HasBounds(ops, context, hs[l - 1]);
    if k < l - 1 {
      HunksInOrder(ops, context, hs, k, l - 1);
    }
  }

  lemma HunkInBounds(ops: seq<Op>, context: nat, h: Span)
    requires HasBounds(ops, context, h)
    ensures h.from < h.to <= |ops|
  {
  }

  lemma HunksHoldChanges(ops: seq<Op>, context: nat, hs: seq<Span>)
    requires AreHunks(ops, context, hs, |ops|)
    ensures HoldChanges(ops, hs, 0) && forall k :: 0 <= k < |hs| ==> hs[k].from < hs[k].to
  {
    hide HasBounds, InSomeHunk;
    forall k | 0 <= k < |hs| ensures hs[k].from < hs[k].to <= |ops| {
      HunkInBounds(ops, context, hs[k]);
    }
    forall k, l | 0 <= k < l < |hs| ensures hs[k].to <= hs[l].from {
      HunksInOrder(ops, context, hs, k, l);
    }
  }

  /** The hunks carry a to b, and every context line they show is really there. */
  lemma PatchGivesOther(ops: seq<Op>, a: seq<Text>, b: seq<Text>, context: nat, hs: seq<Span>)
    requires IsScript(ops, a, b) && AreHunks(ops, context, hs, |ops|)
    ensures forall k :: 0 <= k < |hs| ==> hs[k].from <= hs[k].to <= |ops|
    ensures Patch(a, HunksOf(ops, hs), 0, 0) == Some(b)
  {
    HunksHoldChanges(ops, context, hs);
    hide AreHunks;
    PatchFrom(ops, a, hs, 0);
    assert ops[0..] == ops && ops[..0] == [];
  }

  // ----- What is printed -----

  /** The lines of a hunk show the context asked for: `context` unchanged lines before the
      first change and after the last, or as many as there are at the top or the bottom of
      the texts, and no longer unchanged run than two contexts in between. */
  ghost predicate ShowsContext(lines: seq<Op>, context: nat, atTop: bool, atBottom: bool) {
    exists first, last :: FramesChanges(lines, context, atTop, atBottom, first, last)
  }

  ghost predicate FramesChanges(lines: seq<Op>, context: nat, atTop: bool, atBottom: bool, first: int, last: int) {
    && 0 <= first <= last < |lines| && lines[first].kind != Equal && lines[last].kind != Equal
    && (forall k :: 0 <= k < first ==> lines[k].kind == Equal)
    && (forall k :: last < k < |lines| ==> lines[k].kind == Equal)
    && (first == context || (first < context && atTop))
    && (|lines| - 1 - last == context || (|lines| - 1 - last < context && atBottom))
    && (forall k :: first <= k && k + 2 * context < last ==> !StaysEqual(lines, k, context))
  }

  /** More than two contexts of unchanged lines from k on. */
  predicate StaysEqual(lines: seq<Op>, k: int, context: nat) {
    forall j :: 0 <= j < |lines| && k <= j <= k + 2 * context ==> lines[j].kind == Equal
  }

  /** A hunk prints the script's lines of its span, in context, under their numbers: a start
      is one more than the lines before it on that side, or on the other side where it has none. */
  ghost predicate Prints(ops: seq<Op>, context: nat, s: Span, h: Hunk) {
    && s.from < s.to <= |ops| && h.ops == ops[s.from..s.to]
    && ShowsContext(h.ops, context, s.from == 0, s.to == |ops|)
    && h.range.aLen == |ASide(h.ops)| && h.range.bLen == |BSide(h.ops)|
    && h.range.aStart == 1 + (if h.range.aLen > 0 then |ASide(ops[..s.from])| else |BSide(ops[..s.from])|)
    && h.range.bStart == 1 + (if h.range.bLen > 0 then |BSide(ops[..s.from])| else |ASide(ops[..s.from])|)
  }

  /** No script from a to b is shorter. */
  ghost predicate IsShortest(ops: seq<Op>, a: seq<Text>, b: seq<Text>) {
    && ASide(ops) == a && BSide(ops) == b
    && forall other: seq<Op> :: ASide(other) == a && BSide(other) == b ==> |ops| <= |other|
  }

  /** The hunks print a shortest script: each in context, apart, every change in one. */
  ghost predicate PrintsScript(ops: seq<Op>, context: nat, spans: seq<Span>, diff: seq<Hunk>) {
    && |diff| == |spans|
    && (forall k :: 0 <= k < |diff| ==> Prints(ops, context, spans[k], diff[k]))
    && (forall k :: 0 <= k < |spans| - 1 ==> spans[k].to < spans[k + 1].from)
    && (forall c :: ChangedAt(ops, c) ==> InSomeHunk(spans, c))
  }

  ghost predicate IsUnifiedDiff(a: seq<Text>, b: seq<Text>, context: nat, diff: seq<Hunk>) {
    exists ops, spans :: IsShortest(ops, a, b) && PrintsScript(ops, context, spans, diff)
  }

  function Changes(ops: seq<Op>): nat {
    if ops == [] then 0 else Changes(ops[..|ops| - 1]) + if ops[|ops| - 1].kind == Equal then 0 else 1
  }

  /** The inserted and deleted lines a diff prints. */
  function ChangedLines(diff: seq<Hunk>): nat {
    if diff == [] then 0 else Changes(diff[0].ops) + ChangedLines(diff[1..])
  }

  ghost predicate IsLongestCommon(c: seq<Text>, a: seq<Text>, b: seq<Text>) {
    && IsSubsequence(c, a) && IsSubsequence(c, b)
    && forall d: seq<Text> :: IsSubsequence(d, a) && IsSubsequence(d, b) ==> |d| <= |c|
  }

  lemma {:induction false} ChangesOfParts(x: seq<Op>, y: seq<Op>)
    ensures Changes(x + y) == Changes(x) + Changes(y)
  {
    if y == [] {
      assert x + y == x;
    } else {
      assert (x + y)[..|x + y| - 1] == x + y[..|y| - 1];
      ChangesOfParts(x, y[..|y| - 1]);
    }
  }

  lemma {:induction false} ChangesAndKept(ops: seq<Op>)
    ensures Changes(ops) + |EqualLines(ops)| == |ops|
  {
    if ops != [] {
      ChangesAndKept(ops[..|ops| - 1]);
    }
  }

  lemma {:induction false} NoneChanged(ops: seq<Op>)
    requires forall k :: 0 <= k < |ops| ==> ops[k].kind == Equal
    ensures Changes(ops) == 0
  {
    if ops != [] {
      NoneChanged(ops[..|ops| - 1]);
    }
  }

  lemma StretchUnchanged(ops: seq<Op>, hs: seq<Span>, e: nat, to: nat)
    requires e <= to <= |ops| && HoldChanges(ops, hs, e)
    requires forall k :: 0 <= k < |hs| ==> to <= hs[k].from
    ensures Changes(ops[e..to]) == 0
  {
    var part := ops[e..to];
    forall k | 0 <= k < |part| ensures part[k].kind == Equal {
      assert ChangedAt(ops, e + k) ==> InSomeHunk(hs, e + k);
    }
    NoneChanged(part);
  }

  /** Every change from e on is printed, once. */
  lemma {:induction false} ChangesPrinted(ops: seq<Op>, hs: seq<Span>, e: nat)
    requires e <= |ops| && HoldChanges(ops, hs, e)
    requires forall k :: 0 <= k < |hs| ==> hs[k].from < hs[k].to
    ensures ChangedLines(HunksOf(ops, hs)) == Changes(ops[e..])
    decreases |hs|
  {
    hide HunkOf, HunksOf, Changes;
    if hs == [] {
      NoHunks(ops, hs);
      StretchUnchanged(ops, hs, e, |ops|);
      assert ops[e..|ops|] == ops[e..];
    } else {
      var h := hs[0];
      StretchUnchanged(ops, hs, e, h.from);
      RestHoldsChanges(ops, hs, e);
      ChangesPrinted(ops, hs[1..], h.to);
      HunksOfFirst(ops, hs);
      PrintedBody(ops, h, HunksOf(ops, hs[1..]));
      assert ops[e..] == ops[e..h.from] + (ops[h.from..h.to] + ops[h.to..]);
      ChangesOfParts(ops[e..h.from], ops[h.from..h.to] + ops[h.to..]);
      ChangesOfParts(ops[h.from..h.to], ops[h.to..]);
    }
  }

  lemma PrintedBody(ops: seq<Op>, h: Span, rest: seq<Hunk>)
    requires h.from <= h.to <= |ops|
    ensures ChangedLines([HunkOf(ops, h)] + rest) == Changes(ops[h.from..h.to]) + ChangedLines(rest)
  {
    hide Changes;
    assert ([HunkOf(ops, h)] + rest)[1..] == rest;
  }

  lemma HunkShowsContext(ops: seq<Op>, context: nat, h: Span)
    requires HasBounds(ops, context, h) && h.from < h.to <= |ops|
    ensures ShowsContext(ops[h.from..h.to], context, h.from == 0, h.to == |ops|)
  {
    var first: nat, last: nat :| IsHunk(ops, context, h, first, last);
    HunkEnds(ops, context, h, first, last);
    HunkGaps(ops, context, h, first, last);
    hide IsHunk, StaysEqual;
    assert FramesChanges(ops[h.from..h.to], context, h.from == 0, h.to == |ops|, first - h.from, last - h.from);
  }

  lemma HunkEnds(ops: seq<Op>, context: nat, h: Span, first: nat, last: nat)
    requires IsHunk(ops, context, h, first, last) && h.to <= |ops|
    ensures h.from <= first <= last < h.to
    ensures var lines, f, l := ops[h.from..h.to], first - h.from, last - h.from;
            && lines[f].kind != Equal && lines[l].kind != Equal
            && (forall k :: 0 <= k < f ==> lines[k].kind == Equal)
            && (forall k :: l < k < |lines| ==> lines[k].kind == Equal)
            && (f == context || (f < context && h.from == 0))
            && (|lines| - 1 - l == context || (|lines| - 1 - l < context && h.to == |ops|))
  {
    hide ShortGaps;
    var lines := ops[h.from..h.to];
    forall k | 0 <= k < first - h.from ensures lines[k].kind == Equal {
      assert !ChangedAt(ops, h.from + k);
    }
    forall k | last - h.from < k < |lines| ensures lines[k].kind == Equal {
      assert !ChangedAt(ops, h.from + k);
    }
  }

  lemma HunkGaps(ops: seq<Op>, context: nat, h: Span, first: nat, last: nat)
    requires IsHunk(ops, context, h, first, last) && h.from <= first <= last < h.to <= |ops|
    ensures var lines, f, l := ops[h.from..h.to], first - h.from, last - h.from;
            forall k :: f <= k && k + 2 * context < l ==> !StaysEqual(lines, k, context)
  {
    var lines := ops[h.from..h.to];
    forall k | first - h.from <= k && k + 2 * context < last - h.from ensures !StaysEqual(lines, k, context) {
      assert !LongRun(ops, context, h.from + k);
      var j :| h.from + k <= j <= h.from + k + 2 * context && ChangedAt(ops, j);
      assert lines[j - h.from].kind != Equal;
    }
  }

  lemma HunkPrints(ops: seq<Op>, context: nat, h: Span)
    requires HasBounds(ops, context, h) && h.from < h.to <= |ops|
    ensures Prints(ops, context, h, HunkOf(ops, h))
  {
    HunkShowsContext(ops, context, h);
    hide ShowsContext, HasBounds;
  }

  lemma HunksPrint(ops: seq<Op>, a: seq<Text>, b: seq<Text>, context: nat, hs: seq<Span>)
    requires IsScript(ops, a, b) && |EqualLines(ops)| == Lcs(a, b, 0, 0) && AreHunks(ops, context, hs, |ops|)
    ensures forall k :: 0 <= k < |hs| ==> hs[k].from <= hs[k].to <= |ops|
    ensures IsUnifiedDiff(a, b, context, HunksOf(ops, hs))
    ensures forall c :: IsLongestCommon(c, a, b) ==> ChangedLines(HunksOf(ops, hs)) + 2 * |c| == |a| + |b|
  {
    HunksHoldChanges(ops, context, hs);
    hide *;
    HoldBounds(ops, hs);
    SpansPrint(ops, a, b, context, hs);
    PrintedCount(ops, a, b, hs);
  }

  lemma HoldBounds(ops: seq<Op>, hs: seq<Span>)
    requires HoldChanges(ops, hs, 0)
    ensures forall k :: 0 <= k < |hs| ==> hs[k].from <= hs[k].to <= |ops|
  {
  }

  lemma SpansPrint(ops: seq<Op>, a: seq<Text>, b: seq<Text>, context: nat, hs: seq<Span>)
    requires IsScript(ops, a, b) && |EqualLines(ops)| == Lcs(a, b, 0, 0) && AreHunks(ops, context, hs, |ops|)
    requires forall k :: 0 <= k < |hs| ==> hs[k].from < hs[k].to <= |ops|
    ensures IsUnifiedDiff(a, b, context, HunksOf(ops, hs))
  {
    ScriptIsShortest(ops, a, b);
    hide AreHunks, PrintsScript, HunksOf, IsShortest, IsScript, EqualLines, Lcs;
    HunksPrintScript(ops, context, hs);
  }

  lemma HunksPrintScript(ops: seq<Op>, context: nat, hs: seq<Span>)
    requires AreHunks(ops, context, hs, |ops|) && forall k :: 0 <= k < |hs| ==> hs[k].from < hs[k].to <= |ops|
    ensures PrintsScript(ops, context, hs, HunksOf(ops, hs))
  {
    hide Prints, HasBounds, HunkOf, InSomeHunk;
    forall k | 0 <= k < |hs| ensures Prints(ops, context, hs[k], HunkOf(ops, hs[k])) {
      HunkPrints(ops, context, hs[k]);
    }
  }

  lemma PrintedCount(ops: seq<Op>, a: seq<Text>, b: seq<Text>, hs: seq<Span>)
    requires IsScript(ops, a, b) && |EqualLines(ops)| == Lcs(a, b, 0, 0)
    requires HoldChanges(ops, hs, 0) && forall k :: 0 <= k < |hs| ==> hs[k].from < hs[k].to <= |ops|
    ensures forall c :: IsLongestCommon(c, a, b) ==> ChangedLines(HunksOf(ops, hs)) + 2 * |c| == |a| + |b|
  {
    hide ASide, BSide, EqualLines, Changes, ChangedLines, HunksOf, IsLongestCommon, HoldChanges;
    KeptIsLongest(ops, a, b);
    ChangesPrinted(ops, hs, 0);
    ChangesAndKept(ops);
    assert ops[0..] == ops;
  }

  lemma ScriptIsShortest(ops: seq<Op>, a: seq<Text>, b: seq<Text>)
    requires IsScript(ops, a, b) && |EqualLines(ops)| == Lcs(a, b, 0, 0)
    ensures IsShortest(ops, a, b)
  {
    forall other: seq<Op> | ASide(other) == a && BSide(other) == b ensures |ops| <= |other| {
      ScriptIsOptimal(ops, a, b, [], other);
    }
  }

  lemma KeptIsLongest(ops: seq<Op>, a: seq<Text>, b: seq<Text>)
    requires IsScript(ops, a, b) && |EqualLines(ops)| == Lcs(a, b, 0, 0)
    ensures IsLongestCommon(EqualLines(ops), a, b)
    ensures forall c :: IsLongestCommon(c, a, b) ==> |c| == |EqualLines(ops)|
    ensures |a| + |b| == |ops| + |EqualLines(ops)|
  {
    EqualLinesAreCommon(ops);
    forall c: seq<Text> | IsSubsequence(c, a) && IsSubsequence(c, b) ensures |c| <= |EqualLines(ops)| {
      ScriptIsOptimal(ops, a, b, c, ops);
    }
    hide EqualLines, ASide, BSide, IsSubsequence, Lcs;
  }

  /** There always is one, so the count of changed lines is never vacuous. */
  lemma LongestCommonExists(a: seq<Text>, b: seq<Text>) returns (c: seq<Text>)
    ensures IsLongestCommon(c, a, b)
  {
    assert IsSubsequence([], a) && IsSubsequence([], b);
    forall d: seq<Text> | IsSubsequence(d, a) ensures |d| <= |a| {
      SubsequenceIsShorter(d, a);
    }
    c := LongestAbove(a, b, []);
  }

  lemma {:induction false} LongestAbove(a: seq<Text>, b: seq<Text>, known: seq<Text>) returns (c: seq<Text>)
    requires IsSubsequence(known, a) && IsSubsequence(known, b)
    requires forall d: seq<Text> :: IsSubsequence(d, a) ==> |d| <= |a|
    ensures IsLongestCommon(c, a, b)
    decreases |a| - |known|
  {
    if d: seq<Text> :| IsSubsequence(d, a) && IsSubsequence(d, b) && |d| > |known| {
      c := LongestAbove(a, b, d);
    } else {
      c := known;
    }
  }

  lemma {:induction false} SubsequenceIsShorter(c: seq<Text>, a: seq<Text>)
    requires IsSubsequence(c, a)
    ensures |c| <= |a|
  {
    if c != [] {
      if c[0] == a[0] && IsSubsequence(c[1..], a[1..]) {
        SubsequenceIsShorter(c[1..], a[1..]);
      } else {
        SubsequenceIsShorter(c, a[1..]);
      }
    }
  }

  /** The diff is empty exactly when the two texts are equal, patching a with it gives b,
      and it prints a shortest script, in hunks with just the context asked for. */
  method UnifiedDiff(a: seq<Text>, b: seq<Text>, context: nat) returns (diff: seq<Hunk>)
    ensures diff == [] <==> a == b
    ensures Patch(a, diff, 0, 0) == Some(b)
    ensures IsUnifiedDiff(a, b, context, diff)
    ensures forall c :: IsLongestCommon(c, a, b) ==> ChangedLines(diff) + 2 * |c| == |a| + |b|
  {
    hide *;
    var ops := DiffOps(a, b);
    ChangeMeansDifferent(ops, a, b);
    if !HasChange(ops) {
      NoChangeNoPatch(a);
      NoChangeNoHunks(ops, context);
      NoHunks(ops, []);
      HunksPrint(ops, a, b, context, []);
      return [];
    }
    var hs := Hunks(ops, context);
    HunksPrint(ops, a, b, context, hs);
    PatchGivesOther(ops, a, b, context, hs);
    ChangeHasHunk(ops, context, hs);
    HunksHoldChanges(ops, context, hs);
    NumberedScript(ops, a, b);
    InOrderBounds(ops, hs);
    diff := [];
    for k := 0 to |hs|
      invariant |diff| == k && forall l :: 0 <= l < k ==> diff[l] == HunkOf(ops, hs[l])
    {
      var printed := PrintHunk(ops, hs[k]);
      diff := diff + [printed];
    }
    assert diff == HunksOf(ops, hs);
  }

  /** One hunk: its header, then its lines. */
  method PrintHunk(ops: seq<Op>, h: Span) returns (printed: Hunk)
    requires Numbered(ops) && h.from < h.to <= |ops|
    ensures printed == HunkOf(ops, h)
  {
    hide *;
    assert ops == ops[..h.from] + ops[h.from..h.to] + ops[h.to..];
    var range := HunkRange(ops[h.from..h.to], ops[..h.from], ops[h.to..]);
    printed := Hunk(range, ops[h.from..h.to]);
    HunkIs(ops, h, range);
  }

  lemma NumberedScript(ops: seq<Op>, a: seq<Text>, b: seq<Text>)
    requires IsScript(ops, a, b)
    ensures Numbered(ops)
  {
  }

  lemma InOrderBounds(ops: seq<Op>, hs: seq<Span>)
    requires HoldChanges(ops, hs, 0)
    ensures forall k :: 0 <= k < |hs| ==> hs[k].to <= |ops|
  {
  }

  lemma HunkIs(ops: seq<Op>, h: Span, range: Range)
    requires h.from <= h.to <= |ops|
    requires range == RangeOf(|ASide(ops[..h.from])|, |BSide(ops[..h.from])|, ops[h.from..h.to])
    ensures Hunk(range, ops[h.from..h.to]) == HunkOf(ops, h)
  {
  }

  lemma NoChangeNoHunks(ops: seq<Op>, context: nat)
    requires !HasChange(ops)
    ensures AreHunks(ops, context, [], |ops|)
  {
  }

  lemma NoChangeNoPatch(a: seq<Text>)
    ensures Patch(a, [], 0, 0) == Some(a)
  {
  }

  lemma ChangeHasHunk(ops: seq<Op>, context: nat, hs: seq<Span>)
    requires HasChange(ops) && AreHunks(ops, context, hs, |ops|)
    ensures hs != []
  {
    var c :| 0 <= c < |ops| && ops[c].kind != Equal;
    assert ChangedAt(ops, c);
  }
}
