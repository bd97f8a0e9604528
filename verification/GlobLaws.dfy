/**
 What the matcher's decisions mean: when the loop agrees with the meaning of a glob,
 when matching a pattern against another pattern's text proves that one covers the
 other, and when it proves that the two have a common text.
 */
module GlobLaws {
  import opened Bytes
  import opened Glob

  // ----- The loop against the meaning -----

  lemma {:induction false} MatchesSkipsRun(p: Text, s: Text, k: nat)
    requires p != [] && p[0] == STAR && k <= |s| && Matches(p[1..], s[k..])
    ensures Matches(p, s)
    decreases k
  {
    if k == 0 {
      assert s[0..] == s;
    } else {
      assert s[1..][k - 1..] == s[k..];
      MatchesSkipsRun(p, s[1..], k - 1);
    }
  }

  lemma {:induction false} MatchesSplitsRun(p: Text, s: Text) returns (k: nat)
    requires p != [] && p[0] == STAR && Matches(p, s)
    ensures k <= |s| && Matches(p[1..], s[k..])
    decreases |s|
  {
    if Matches(p[1..], s) {
      k := 0;
      assert s[0..] == s;
    } else {
      k := MatchesSplitsRun(p, s[1..]);
      assert s[1..][k..] == s[k + 1..];
      k := k + 1;
    }
  }

  lemma {:induction false} AllStarsMatchEmpty(p: Text)
    ensures Matches(p, []) == AllStars(p)
  {
    if p != [] {
      AllStarsMatchEmpty(p[1..]);
      assert p == [p[0]] + p[1..];
    }
  }

  /** A positive answer is always right. */
  lemma {:induction false} AcceptsIsSound(p: Text, s: Text)
    ensures Accepts(p, s) ==> Matches(p, s)
    decreases |p|
  {
    if s == [] {
      AllStarsMatchEmpty(p);
    } else if p == [] {
    } else if p[0] == QUESTION || p[0] == s[0] {
      AcceptsIsSound(p[1..], s[1..]);
      if p[0] == STAR && Accepts(p, s) {
        MatchesSkipsRun(p, s, 1);
      }
    } else if Accepts(p, s) {
      var k :| 0 <= k <= |s| && Accepts(p[1..], s[k..]);
      AcceptsIsSound(p[1..], s[k..]);
      MatchesSkipsRun(p, s, k);
    }
  }

  /** On a subject without a star, a negative answer is right as well. */
  lemma {:induction false} AcceptsIsExact(p: Text, s: Text)
    requires StarFree(s)
    ensures Accepts(p, s) == Matches(p, s)
    decreases |p|
  {
    AcceptsIsSound(p, s);
    if Matches(p, s) {
      if s == [] {
        AllStarsMatchEmpty(p);
      } else if p[0] == STAR {
        var k := MatchesSplitsRun(p, s);
        AcceptsIsExact(p[1..], s[k..]);
        assert Accepts(p[1..], s[k..]);
      } else {
        AcceptsIsExact(p[1..], s[1..]);
      }
    }
  }

  lemma {:induction false} StarFreePatternIsExact(p: Text, s: Text)
    requires StarFree(p)
    ensures Accepts(p, s) == Matches(p, s)
    ensures Matches(p, s) ==> |p| == |s|
  {
    if p != [] && s != [] {
      StarFreePatternIsExact(p[1..], s[1..]);
    }
  }

  /** A shared beginning is consumed byte by byte, stars included. */
  lemma {:induction false} SharedPrefix(u: Text, p: Text, s: Text)
    ensures Accepts(u + p, u + s) == Accepts(p, s)
    ensures Matches(p, s) ==> Matches(u + p, u + s)
  {
    if u == [] {
      assert u + p == p && u + s == s;
    } else {
      assert (u + p)[1..] == u[1..] + p && (u + s)[1..] == u[1..] + s;
      SharedPrefix(u[1..], p, s);
    }
  }

  lemma {:induction false} AcceptsItself(p: Text)
    ensures Accepts(p, p)
  {
    SharedPrefix(p, [], []);
    assert p + [] == p;
  }

  lemma {:induction false} LastStar(p: Text) returns (k: nat)
    requires !StarFree(p)
    ensures k < |p| && p[k] == STAR && StarFree(p[k + 1..])
  {
    if p[|p| - 1] == STAR {
      k := |p| - 1;
    } else {
      var q := p[..|p| - 1];
      assert p == q + [p[|p| - 1]];
      k := LastStar(q);
      assert p[k + 1..] == q[k + 1..] + [p[|p| - 1]];
    }
  }

  /** One byte more after the last star: the two texts accept neither each other. */
  lemma LongerTailIsRefused(u: Text, c: Byte, v: Text)
    requires StarFree([c] + v)
    ensures !Accepts(u + v, u + ([c] + v)) && !Accepts(u + ([c] + v), u + v)
  {
    assert forall k :: 0 <= k < |v| ==> v[k] == ([c] + v)[k + 1];
    SharedPrefix(u, v, [c] + v);
    SharedPrefix(u, [c] + v, v);
    StarFreePatternIsExact(v, [c] + v);
    StarFreePatternIsExact([c] + v, v);
  }

  lemma StarSwallowsByte(w: Text, c: Byte, v: Text)
    ensures Matches(w + ([STAR] + v), w + ([STAR, c] + v))
  {
    AcceptsItself(v);
    AcceptsIsSound(v, v);
    assert ([STAR, c] + v)[2..] == v && ([STAR] + v)[1..] == v;
    MatchesSkipsRun([STAR] + v, [STAR, c] + v, 2);
    SharedPrefix(w, [STAR] + v, [STAR, c] + v);
  }

  /** Inserting one letter after the last star of a pattern gives a text that the glob
      means and that the loop refuses. */
  lemma RefusedInsertion(p: Text) returns (s: Text)
    requires !StarFree(p)
    ensures Matches(p, s) && !Accepts(p, s) && !Accepts(s, p)
  {
    var k := LastStar(p);
    var w, v := p[..k], p[k + 1..];
    var u := w + [STAR];
    s := u + (['a'] + v);
    LongerTailIsRefused(u, 'a', v);
    StarSwallowsByte(w, 'a', v);
    assert u + v == w + ([STAR] + v) == p;
    assert s == w + ([STAR, 'a'] + v);
  }

  /** The loop decides a pattern's meaning on every text exactly when the pattern has no star. */
  lemma PatternExactness(p: Text)
    ensures (forall s: Text :: Accepts(p, s) == Matches(p, s)) <==> StarFree(p)
  {
    if StarFree(p) {
      forall s: Text ensures Accepts(p, s) == Matches(p, s) {
        StarFreePatternIsExact(p, s);
      }
    } else {
      var s := RefusedInsertion(p);
      assert Accepts(p, s) != Matches(p, s);
    }
  }

  /** The loop decides every pattern rightly on a text exactly when the text has no star. */
  lemma SubjectExactness(s: Text)
    ensures (forall p: Text :: Accepts(p, s) == Matches(p, s)) <==> StarFree(s)
  {
    if StarFree(s) {
      forall p: Text ensures Accepts(p, s) == Matches(p, s) {
        AcceptsIsExact(p, s);
      }
    } else {
      var k := LastStar(s);
      var u, v := s[..k], s[k + 1..];
      var p := u + ([STAR, QUESTION] + v);
      assert s == u + ([STAR] + v);
      SharedPrefix(u, [STAR, QUESTION] + v, [STAR] + v);
      assert ([STAR, QUESTION] + v)[1..] == [QUESTION] + v && ([STAR] + v)[1..] == v;
      StarFreePatternIsExact([QUESTION] + v, v);
      AcceptsItself(v);
      AcceptsIsSound(v, v);
      assert ([QUESTION] + v)[1..] == v;
      assert Matches([QUESTION] + v, [STAR] + v);
      assert Accepts(p, s) != Matches(p, s);
    }
  }

  predicate Literal(p: Text) { StarFree(p) && QUESTION !in p }

  /** A literal, or a literal followed by one star: the way policies are written. */
  predicate Prefixed(p: Text) {
    Literal(p) || (p[|p| - 1] == STAR && Literal(p[..|p| - 1]))
  }

  lemma {:induction false} LiteralMatchesItselfOnly(p: Text, s: Text)
    requires Literal(p)
    ensures Matches(p, s) <==> s == p
  {
    if p != [] && s != [] {
      LiteralMatchesItselfOnly(p[1..], s[1..]);
      assert p == [p[0]] + p[1..] && s == [s[0]] + s[1..];
    }
  }

  lemma {:induction false} PrefixMatches(u: Text, s: Text)
    requires Literal(u)
    ensures Matches(u + [STAR], s) <==> u <= s
  {
    if u == [] {
      assert u + [STAR] == [STAR];
      assert s[|s|..] == [];
      MatchesSkipsRun([STAR], s, |s|);
    } else {
      assert (u + [STAR])[1..] == u[1..] + [STAR];
      if s != [] {
        PrefixMatches(u[1..], s[1..]);
        assert u == [u[0]] + u[1..] && s == [s[0]] + s[1..];
      }
    }
  }

  lemma PrefixAcceptsPrefix(u: Text, v: Text)
    requires Literal(u) && Literal(v) && u <= v
    ensures Accepts(u + [STAR], v + [STAR])
  {
    var rest := v[|u|..];
    assert v + [STAR] == u + (rest + [STAR]);
    SharedPrefix(u, [STAR], rest + [STAR]);
    if rest == [] {
      assert rest + [STAR] == [STAR];
    } else {
      var whole := rest + [STAR];
      assert whole[0] == rest[0] && rest[0] in v;
      assert whole[|whole|..] == [] && [STAR][1..] == [];
      assert Accepts([STAR][1..], whole[|whole|..]);
    }
  }

  // ----- Coverage: matching a pattern against a pattern's text -----

  /** Every star-free text the inner pattern accepts, the outer accepts. */
  ghost predicate Includes(outer: Text, inner: Text) {
    forall s: Text :: StarFree(s) && Accepts(inner, s) ==> Accepts(outer, s)
  }

  lemma {:induction false} TextMatchCovers(outer: Text, inner: Text, s: Text)
    requires QUESTION !in outer || StarFree(inner)
    requires Matches(outer, inner) && Matches(inner, s)
    ensures Matches(outer, s)
    decreases |outer| + |inner| + |s|
  {
    if outer == [] {
    } else if outer[0] == STAR {
      if Matches(outer[1..], inner) {
        TextMatchCovers(outer[1..], inner, s);
      } else if inner[0] == STAR {
        var k := MatchesSplitsRun(inner, s);
        TextMatchCovers(outer, inner[1..], s[k..]);
        var j := MatchesSplitsRun(outer, s[k..]);
        assert s[k..][j..] == s[k + j..];
        MatchesSkipsRun(outer, s, k + j);
      } else {
        TextMatchCovers(outer, inner[1..], s[1..]);
      }
    } else {
      TextMatchCovers(outer[1..], inner[1..], s[1..]);
    }
  }

  /** Matching the inner pattern's text proves inclusion, unless a `?` faces a pattern with a star. */
  lemma AcceptedTextIsIncluded(outer: Text, inner: Text)
    requires QUESTION !in outer || StarFree(inner)
    requires Accepts(outer, inner)
    ensures Includes(outer, inner)
  {
    forall s: Text | StarFree(s) && Accepts(inner, s) ensures Accepts(outer, s) {
      AcceptsIsSound(outer, inner);
      AcceptsIsSound(inner, s);
      TextMatchCovers(outer, inner, s);
      AcceptsIsExact(outer, s);
    }
  }

  function Replaced(p: Text, from: Byte, to: Byte): (r: Text)
    ensures |r| == |p|
    ensures forall k :: 0 <= k < |p| ==> r[k] == if p[k] == from then to else p[k]
  {
    seq(|p|, k requires 0 <= k < |p| => if p[k] == from then to else p[k])
  }

  lemma {:induction false} AcceptsPointwise(p: Text, s: Text)
    requires |p| == |s| && forall k :: 0 <= k < |p| ==> p[k] == QUESTION || p[k] == s[k]
    ensures Accepts(p, s)
  {
    if p != [] {
      AcceptsPointwise(p[1..], s[1..]);
    }
  }

  /** A shortest text a pattern stands for: its stars empty, its question marks one letter. */
  function Shortest(p: Text): (s: Text)
    ensures StarFree(s) && QUESTION !in s
    ensures |s| <= |p|
    ensures !StarFree(p) ==> |s| < |p|
  {
    if p == [] then []
    else if p[0] == STAR then Shortest(p[1..])
    else [if p[0] == QUESTION then 'a' else p[0]] + Shortest(p[1..])
  }

  lemma {:induction false} ShortestIsShortest(p: Text, s: Text)
    ensures Matches(p, Shortest(p))
    ensures Matches(p, s) ==> |Shortest(p)| <= |s|
    decreases |p| + |s|
  {
    if p != [] {
      if p[0] == STAR {
        ShortestIsShortest(p[1..], s);
        if s != [] {
          ShortestIsShortest(p, s[1..]);
        }
      } else {
        ShortestIsShortest(p[1..], if s == [] then [] else s[1..]);
        assert Shortest(p)[1..] == Shortest(p[1..]);
      }
    }
  }

  lemma {:induction false} StarsForQuestionsShorten(p: Text)
    ensures |Shortest(Replaced(p, QUESTION, STAR))| <= |Shortest(p)|
    ensures QUESTION in p ==> |Shortest(Replaced(p, QUESTION, STAR))| < |Shortest(p)|
  {
    if p != [] {
      assert Replaced(p, QUESTION, STAR)[1..] == Replaced(p[1..], QUESTION, STAR);
      StarsForQuestionsShorten(p[1..]);
      assert p == [p[0]] + p[1..];
    }
  }

  /** An outer pattern's text matches prove coverage for every inner pattern exactly
      when it has no question mark. */
  lemma OuterCoverageExactness(outer: Text)
    ensures (forall inner: Text :: Accepts(outer, inner) ==> Includes(outer, inner)) <==> QUESTION !in outer
  {
    if QUESTION !in outer {
      forall inner: Text | Accepts(outer, inner) ensures Includes(outer, inner) {
        AcceptedTextIsIncluded(outer, inner);
      }
    } else {
      var inner := Replaced(outer, QUESTION, STAR);
      var s := Shortest(inner);
      AcceptsPointwise(outer, inner);
      StarsForQuestionsShorten(outer);
      ShortestIsShortest(outer, s);
      ShortestIsShortest(inner, s);
      AcceptsIsExact(inner, s);
      AcceptsIsSound(outer, s);
      assert !Includes(outer, inner);
    }
  }

  /** An inner pattern is safely covered by every pattern that matches its text exactly
      when it has no star. */
  lemma InnerCoverageExactness(inner: Text)
    ensures (forall outer: Text :: Accepts(outer, inner) ==> Includes(outer, inner)) <==> StarFree(inner)
  {
    if StarFree(inner) {
      forall outer: Text | Accepts(outer, inner) ensures Includes(outer, inner) {
        AcceptedTextIsIncluded(outer, inner);
      }
    } else {
      var outer := Replaced(inner, STAR, QUESTION);
      var s := Shortest(inner);
      AcceptsPointwise(outer, inner);
      ShortestIsShortest(inner, s);
      AcceptsIsExact(inner, s);
      StarFreePatternIsExact(outer, s);
      assert !Includes(outer, inner);
    }
  }

  /** A literal prefix with a star includes, but does not accept as text, any pattern
      that goes on after a star at the same place. */
  lemma MissedCoverage(u: Text, v: Text)
    requires Literal(u) && v != []
    ensures !Accepts(u + [STAR], u + [STAR] + v) && Includes(u + [STAR], u + [STAR] + v)
  {
    var outer, inner := u + [STAR], u + [STAR] + v;
    SharedPrefix(outer, [], v);
    assert outer + [] == outer;
    PrefixMatches(u, inner);
    forall s: Text | StarFree(s) && Accepts(inner, s) ensures Accepts(outer, s) {
      AcceptsIsSound(inner, s);
      TextMatchCovers(outer, inner, s);
      AcceptsIsExact(outer, s);
    }
  }

  lemma {:induction false} LongText(p: Text, n: nat) returns (s: Text)
    requires !StarFree(p)
    ensures StarFree(s) && Accepts(p, s) && |s| > n
  {
    if p[0] == STAR {
      var run := seq(n + 1, _ => 'a');
      s := run + Shortest(p[1..]);
      ShortestIsShortest(p[1..], []);
      assert s[n + 1..] == Shortest(p[1..]);
      MatchesSkipsRun(p, s, n + 1);
    } else {
      assert p == [p[0]] + p[1..];
      var rest := LongText(p[1..], n);
      AcceptsIsSound(p[1..], rest);
      s := [if p[0] == QUESTION then 'a' else p[0]] + rest;
      assert s[1..] == rest;
    }
    AcceptsIsExact(p, s);
  }

  lemma OnlyItselfIsIncluded(outer: Text, inner: Text)
    requires Literal(outer) && Includes(outer, inner)
    ensures inner == outer
  {
    if !StarFree(inner) {
      var s := LongText(inner, |outer|);
      StarFreePatternIsExact(outer, s);
    } else {
      var s, t := Replaced(inner, QUESTION, 'a'), Replaced(inner, QUESTION, 'b');
      AcceptsPointwise(inner, s);
      AcceptsPointwise(inner, t);
      AcceptsIsSound(outer, s);
      AcceptsIsSound(outer, t);
      LiteralMatchesItselfOnly(outer, s);
      LiteralMatchesItselfOnly(outer, t);
    }
  }

  /** Matching texts is the same as inclusion, for every inner pattern, exactly when the
      outer pattern has no wildcard. */
  lemma CoverageExactness(outer: Text)
    ensures (forall inner: Text :: Accepts(outer, inner) <==> Includes(outer, inner)) <==> Literal(outer)
  {
    if Literal(outer) {
      forall inner: Text ensures Accepts(outer, inner) <==> Includes(outer, inner) {
        if Accepts(outer, inner) {
          AcceptedTextIsIncluded(outer, inner);
        } else if Includes(outer, inner) {
          OnlyItselfIsIncluded(outer, inner);
          AcceptsItself(outer);
        }
      }
    } else if QUESTION in outer {
      OuterCoverageExactness(outer);
    } else {
      var inner := RefusedInsertion(outer);
      forall s: Text | StarFree(s) && Accepts(inner, s) ensures Accepts(outer, s) {
        AcceptsIsSound(inner, s);
        TextMatchCovers(outer, inner, s);
        AcceptsIsExact(outer, s);
      }
      assert Includes(outer, inner);
    }
  }

  /** Between literal prefixes, as policies are written, text matching is inclusion. */
  lemma PrefixCoverageIsExact(outer: Text, inner: Text)
    requires Prefixed(outer) && Prefixed(inner)
    ensures Accepts(outer, inner) <==> Includes(outer, inner)
  {
    CoverageExactness(outer);
    hide Accepts, Includes;
    if Accepts(outer, inner) {
      assert QUESTION !in outer;
      AcceptedTextIsIncluded(outer, inner);
    } else if Includes(outer, inner) && Literal(inner) {
      IncludedLiteral(outer, inner);
    } else if Includes(outer, inner) && !Literal(outer) {
      var u, v := outer[..|outer| - 1], inner[..|inner| - 1];
      assert outer == u + [STAR] && inner == v + [STAR];
      IncludedPrefix(u, v);
    }
  }

  lemma IncludedLiteral(outer: Text, inner: Text)
    requires Literal(inner) && Includes(outer, inner)
    ensures Accepts(outer, inner)
  {
    AcceptsItself(inner);
  }

  lemma IncludedPrefix(u: Text, v: Text)
    requires Literal(u) && Literal(v) && Includes(u + [STAR], v + [STAR])
    ensures Accepts(u + [STAR], v + [STAR])
  {
    PrefixMatches(v, v);
    AcceptsIsExact(v + [STAR], v);
    AcceptsIsSound(u + [STAR], v);
    PrefixMatches(u, v);
    hide Accepts, Matches;
    PrefixAcceptsPrefix(u, v);
  }

  // ----- Overlap: two patterns with a common text -----

  ghost predicate HaveCommonText(x: Text, y: Text) {
    exists s: Text :: StarFree(s) && Accepts(x, s) && Accepts(y, s)
  }

  predicate TextsOverlap(x: Text, y: Text) { Accepts(x, y) || Accepts(y, x) }

  /** A pattern's text with one letter in place of each wildcard. */
  function Sample(p: Text): (s: Text)
    ensures StarFree(s)
  {
    Replaced(Replaced(p, STAR, 'a'), QUESTION, 'a')
  }

  lemma {:induction false} SampleFollowsText(x: Text, y: Text)
    requires Matches(x, y)
    ensures Matches(x, Sample(y))
    decreases |x| + |y|
  {
    if x != [] && y != [] {
      assert Sample(y)[1..] == Sample(y[1..]);
      if x[0] == STAR {
        if Matches(x[1..], y) {
          SampleFollowsText(x[1..], y);
        } else {
          SampleFollowsText(x, y[1..]);
        }
      } else {
        SampleFollowsText(x[1..], y[1..]);
      }
    }
  }

  lemma SampleIsCommon(x: Text, y: Text)
    requires Matches(x, y)
    ensures Accepts(x, Sample(y)) && Accepts(y, Sample(y))
  {
    SampleFollowsText(x, y);
    AcceptsItself(y);
    AcceptsIsSound(y, y);
    SampleFollowsText(y, y);
    AcceptsIsExact(x, Sample(y));
    AcceptsIsExact(y, Sample(y));
  }

  /** A yes is never wrong: some star-free text is accepted by both patterns. */
  lemma TextOverlapIsReal(x: Text, y: Text)
    requires TextsOverlap(x, y)
    ensures HaveCommonText(x, y)
  {
    if Accepts(x, y) {
      AcceptsIsSound(x, y);
      SampleIsCommon(x, y);
    } else {
      AcceptsIsSound(y, x);
      SampleIsCommon(y, x);
    }
  }

  lemma PrefixPairOverlaps(u: Text, v: Text, s: Text)
    requires Literal(u) && Literal(v)
    requires Matches(u + [STAR], s) && Matches(v + [STAR], s)
    ensures TextsOverlap(u + [STAR], v + [STAR])
  {
    PrefixMatches(u, s);
    PrefixMatches(v, s);
    if |u| <= |v| {
      assert u <= v;
      PrefixAcceptsPrefix(u, v);
    } else {
      assert v <= u;
      PrefixAcceptsPrefix(v, u);
    }
  }

  /** With one literal, or two literal prefixes, a no is never wrong either. */
  lemma OverlapIsExact(x: Text, y: Text)
    requires Literal(x) || Literal(y) || (Prefixed(x) && Prefixed(y))
    ensures TextsOverlap(x, y) <==> HaveCommonText(x, y)
  {
    if TextsOverlap(x, y) {
      TextOverlapIsReal(x, y);
    }
    if HaveCommonText(x, y) {
      var s: Text :| StarFree(s) && Accepts(x, s) && Accepts(y, s);
      AcceptsIsSound(x, s);
      AcceptsIsSound(y, s);
      if Literal(x) {
        LiteralMatchesItselfOnly(x, s);
      } else if Literal(y) {
        LiteralMatchesItselfOnly(y, s);
      } else {
        assert x == x[..|x| - 1] + [STAR] && y == y[..|y| - 1] + [STAR];
        PrefixPairOverlaps(x[..|x| - 1], y[..|y| - 1], s);
      }
    }
  }

  lemma MissedBesideStar(x: Text) returns (y: Text)
    requires !StarFree(x)
    ensures !TextsOverlap(x, y) && HaveCommonText(x, y)
  {
    y := RefusedInsertion(x);
    SampleIsCommon(x, y);
  }

  lemma LetterInsteadOfQuestion(u: Text, v: Text)
    requires StarFree(u) && StarFree(v)
    ensures !TextsOverlap(u + ([QUESTION] + v), u + (['a'] + v + [STAR]))
  {
    var x, y := u + ([QUESTION] + v), u + (['a'] + v + [STAR]);
    SharedPrefix(u, [QUESTION] + v, ['a'] + v + [STAR]);
    assert StarFree([QUESTION] + v);
    StarFreePatternIsExact([QUESTION] + v, ['a'] + v + [STAR]);
    SharedPrefix(u, ['a'] + v + [STAR], [QUESTION] + v);
  }

  lemma MissedBesideQuestion(x: Text) returns (y: Text)
    requires StarFree(x) && QUESTION in x
    ensures !TextsOverlap(x, y) && HaveCommonText(x, y)
  {
    var k :| 0 <= k < |x| && x[k] == QUESTION;
    var u, v := x[..k], x[k + 1..];
    y := u + (['a'] + v + [STAR]);
    assert x == u + ([QUESTION] + v);
    LetterInsteadOfQuestion(u, v);
    var filled := x[k := 'a'];
    assert y == filled + [STAR];
    AcceptsPointwise(x, Sample(x));
    AcceptsPointwise(filled, Sample(x));
    AcceptsIsSound(filled, Sample(x));
    TrailingStarIsHarmless(filled, Sample(x));
    AcceptsIsExact(y, Sample(x));
  }

  lemma {:induction false} TrailingStarIsHarmless(p: Text, s: Text)
    requires Matches(p, s)
    ensures Matches(p + [STAR], s)
    decreases |p| + |s|
  {
    if p == [] {
      assert p + [STAR] == [STAR];
      AllStarsMatchEmpty([STAR]);
    } else {
      assert (p + [STAR])[1..] == p[1..] + [STAR];
      if p[0] == STAR && !Matches(p[1..], s) {
        TrailingStarIsHarmless(p, s[1..]);
      } else if p[0] == STAR {
        TrailingStarIsHarmless(p[1..], s);
      } else {
        TrailingStarIsHarmless(p[1..], s[1..]);
      }
    }
  }

  /** The overlap test is right about a pattern and every partner exactly when the
      pattern has no wildcard at all. */
  lemma OverlapExactness(x: Text)
    ensures (forall y: Text :: TextsOverlap(x, y) <==> HaveCommonText(x, y)) <==> Literal(x)
  {
    if Literal(x) {
      forall y: Text ensures TextsOverlap(x, y) <==> HaveCommonText(x, y) {
        OverlapIsExact(x, y);
      }
    } else {
      var y: Text;
      if StarFree(x) {
        y := MissedBesideQuestion(x);
      } else {
        y := MissedBesideStar(x);
      }
    }
  }
}
