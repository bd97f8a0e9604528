/**
 The glob matcher every policy decision rests on (internal/policy/policy.go, wildcardMatch).

 Three descriptions meet here: Matches is the meaning of a glob, Accepts is the
 language the Go loop decides on every input, and WildcardMatch is the loop itself.
 They differ only for subjects that contain a `*`, because the loop tests equality
 before it tests for a star and so reads a `*` facing a `*` as a literal.
 */
module Glob {
  import opened Bytes

  const STAR: Byte := '*'
  const QUESTION: Byte := '?'

  predicate StarFree(s: Text) { STAR !in s }

  predicate AllStars(p: Text) { forall k :: 0 <= k < |p| ==> p[k] == STAR }

  /** The meaning: `*` stands for any run of bytes, `?` for any one byte. */
  predicate Matches(p: Text, s: Text)
    decreases |p| + |s|
  {
    if p == [] then s == []
    else if p[0] == STAR then Matches(p[1..], s) || (s != [] && Matches(p, s[1..]))
    else s != [] && (p[0] == QUESTION || p[0] == s[0]) && Matches(p[1..], s[1..])
  }

  /** What the loop decides: a pattern byte equal to the subject byte is consumed as
      a literal, and only otherwise does a `*` stand for a run. */
  predicate Accepts(p: Text, s: Text)
    decreases |p|
  {
    if s == [] then AllStars(p)
    else if p == [] then false
    else if p[0] == QUESTION || p[0] == s[0] then Accepts(p[1..], s[1..])
    else p[0] == STAR && exists k :: 0 <= k <= |s| && Accepts(p[1..], s[k..])
  }

  // ----- The loop -----

  /** Whether the rest of the pattern accepts the subject from some position at or after sx. */
  predicate AcceptsLater(p: Text, s: Text, sx: nat)
    requires sx <= |s|
  {
    exists q :: sx <= q <= |s| && Accepts(p, s[q..])
  }

  lemma Unfold(p: Text, s: Text, px: nat, sx: nat)
    requires px <= |p| && sx <= |s|
    ensures px < |p| ==> p[px..][0] == p[px] && p[px..][1..] == p[px + 1..]
    ensures sx < |s| ==> s[sx..][0] == s[sx] && s[sx..][1..] == s[sx + 1..]
    ensures forall k :: 0 <= k <= |s| - sx ==> s[sx..][k..] == s[sx + k..]
  {
  }

  /** A star, wild or literal, leaves the rest of the pattern to start no earlier. */
  lemma PastStar(p: Text, s: Text, px: nat, q: nat)
    requires px < |p| && q <= |s| && p[px] == STAR && Accepts(p[px..], s[q..])
    ensures AcceptsLater(p[px + 1..], s, q)
    ensures q < |s| && s[q] == STAR ==> AcceptsLater(p[px + 1..], s, q + 1)
  {
  }

  lemma StarLater(p: Text, s: Text, px: nat, sx: nat)
    requires px < |p| && sx < |s| && p[px] == STAR
    requires AcceptsLater(p[px..], s, sx)
    ensures AcceptsLater(p[px + 1..], s, sx)
  {
  }

  /** What the loop's four variables mean: without a star the answer is still the
      answer at (px, sx); with one, some later alignment of the text after the star
      decides, and no alignment can reach px before sx. */
  ghost predicate Searching(p: Text, s: Text, px: int, sx: int, star: int, mark: int) {
    && 0 <= px <= |p| && 0 <= mark <= sx <= |s| && -1 <= star < |p|
    && if star == -1 then
         Accepts(p, s) == Accepts(p[px..], s[sx..])
       else
         && Accepts(p, s) == AcceptsLater(p[star + 1..], s, mark)
         && Accepts(p[star + 1..], s[mark..]) == Accepts(p[px..], s[sx..])
         && (AcceptsLater(p[star + 1..], s, mark) ==> AcceptsLater(p[px..], s, sx))
  }

  method WildcardMatch(pattern: Text, s: Text) returns (matched: bool)
    ensures matched == Accepts(pattern, s)
  {
    hide Accepts, AllStars, Searching;
    var px, sx := 0, 0;
    var star, mark := -1, 0;
    SearchingStarts(pattern, s);
    while sx < |s|
      invariant Searching(pattern, s, px, sx, star, mark)
      invariant 0 <= px <= |pattern| && 0 <= mark <= sx <= |s| && -1 <= star < |pattern|
      decreases |s| - mark, |pattern| - px
    {
      if px < |pattern| && (pattern[px] == QUESTION || pattern[px] == s[sx]) {
        LiteralStep(pattern, s, px, sx, star, mark);
        px := px + 1;
        sx := sx + 1;
      } else if px < |pattern| && pattern[px] == STAR {
        StarStep(pattern, s, px, sx, star, mark);
        star, mark := px, sx;
        px := px + 1;
      } else if star != -1 {
        RetryStep(pattern, s, px, sx, star, mark);
        px := star + 1;
        mark := mark + 1;
        sx := mark;
      } else {
        DeadEnd(pattern, s, px, sx, star, mark);
        return false;
      }
    }
    SubjectConsumed(pattern, s, px, sx, star, mark);
    while px < |pattern| && pattern[px] == STAR
      invariant 0 <= px <= |pattern|
      invariant Accepts(pattern, s) == AllStars(pattern[px..])
    {
      TrailingStar(pattern, px);
      px := px + 1;
    }
    TrailingStar(pattern, px);
    return px == |pattern|;
  }

  lemma TrailingStar(p: Text, px: nat)
    requires px <= |p|
    ensures px < |p| && p[px] == STAR ==> AllStars(p[px..]) == AllStars(p[px + 1..])
    ensures px == |p| || p[px] != STAR ==> AllStars(p[px..]) == (px == |p|)
  {
  }

  lemma SearchingStarts(p: Text, s: Text)
    ensures Searching(p, s, 0, 0, -1, 0)
  {
  }

  lemma DeadEnd(p: Text, s: Text, px: int, sx: int, star: int, mark: int)
    requires Searching(p, s, px, sx, star, mark) && sx < |s| && star == -1
    requires px < |p| ==> p[px] != QUESTION && p[px] != s[sx] && p[px] != STAR
    ensures !Accepts(p, s)
  {
  }

  lemma LiteralStep(p: Text, s: Text, px: int, sx: int, star: int, mark: int)
    requires Searching(p, s, px, sx, star, mark) && px < |p| && sx < |s|
    requires p[px] == QUESTION || p[px] == s[sx]
    ensures Searching(p, s, px + 1, sx + 1, star, mark)
  {
  }

  lemma StarStep(p: Text, s: Text, px: int, sx: int, star: int, mark: int)
    requires Searching(p, s, px, sx, star, mark) && px < |p| && sx < |s|
    requires p[px] == STAR && s[sx] != STAR
    ensures Searching(p, s, px + 1, sx, px, sx)
  {
    OpenStar(p, s, px, sx);
    if AcceptsLater(p[px..], s, sx) {
      StarLater(p, s, px, sx);
    }
    if star != -1 && Accepts(p[px..], s[sx..]) {
      assert Accepts(p[star + 1..], s[mark..]);
    }
  }

  lemma RetryStep(p: Text, s: Text, px: int, sx: int, star: int, mark: int)
    requires Searching(p, s, px, sx, star, mark) && sx < |s| && star != -1
    requires px < |p| ==> p[px] != QUESTION && p[px] != s[sx] && p[px] != STAR
    ensures Searching(p, s, star + 1, mark + 1, star, mark + 1)
  {
  }

  lemma SubjectConsumed(p: Text, s: Text, px: int, sx: int, star: int, mark: int)
    requires Searching(p, s, px, sx, star, mark) && sx == |s|
    ensures Accepts(p, s) == AllStars(p[px..])
  {
  }

  lemma OpenStar(p: Text, s: Text, px: nat, sx: nat)
    requires px < |p| && sx < |s| && p[px] == STAR && s[sx] != STAR
    ensures Accepts(p[px..], s[sx..]) == AcceptsLater(p[px + 1..], s, sx)
  {
    Unfold(p, s, px, sx);
    if AcceptsLater(p[px + 1..], s, sx) {
      var q :| sx <= q <= |s| && Accepts(p[px + 1..], s[q..]);
      assert s[sx..][q - sx..] == s[q..];
      assert Accepts(p[px..], s[sx..]);
    } else if Accepts(p[px..], s[sx..]) {
      PastStar(p, s, px, sx);
    }
  }
}
