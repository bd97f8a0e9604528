/**
 When one rule covers another and when two rules intersect, computed by matching
 patterns against patterns as text (internal/policy/analyze.go and secretsOverlap in
 internal/policy/check.go), and what those answers say about requests.
 */
module Coverage {
  import opened Bytes
  import opened Glob
  import opened GlobLaws
  import opened Policy

  // ----- Coverage -----

  predicate PatternsCover(outer: seq<Text>, inner: seq<Text>) {
    || outer == []
    || (inner != [] && forall i :: 0 <= i < |inner| ==> AnyAccepts(outer, inner[i]))
  }

  predicate Scheduled(r: Rule) { r.weekdays != [] || r.monthdays != [] || r.hours != [] }

  predicate TimeCovers(outer: Rule, inner: Rule) {
    || !Scheduled(outer)
    || (outer.weekdays == inner.weekdays && outer.monthdays == inner.monthdays && outer.hours == inner.hours)
  }

  predicate RuleCovers(outer: Rule, inner: Rule) {
    && PatternsCover(outer.secrets, inner.secrets)
    && PatternsCover(outer.identities, inner.identities)
    && PatternsCover(outer.modes, inner.modes)
    && TimeCovers(outer, inner)
  }

  /** A pattern list as a condition: an empty list places none. */
  predicate Admits(patterns: seq<Text>, s: Text) { patterns == [] || AnyAccepts(patterns, s) }

  /** No outer pattern with a `?` faces an inner pattern with a `*`. */
  predicate Unmixed(outer: seq<Text>, inner: seq<Text>) {
    forall i, j :: 0 <= i < |outer| && 0 <= j < |inner| ==> QUESTION !in outer[i] || StarFree(inner[j])
  }

  predicate RulesUnmixed(outer: Rule, inner: Rule) {
    && Unmixed(outer.secrets, inner.secrets)
    && Unmixed(outer.identities, inner.identities)
    && Unmixed(outer.modes, inner.modes)
  }

  /** A request whose strings hold no `*`, where the matcher decides the meaning of a glob. */
  predicate Plain(r: Request) { StarFree(r.ref) && StarFree(r.identity) && StarFree(r.mode) }

  lemma PatternsCoverIsInclusion(outer: seq<Text>, inner: seq<Text>, s: Text)
    requires PatternsCover(outer, inner) && Unmixed(outer, inner)
    requires StarFree(s) && Admits(inner, s)
    ensures Admits(outer, s)
  {
    if outer != [] {
      var j :| 0 <= j < |inner| && Accepts(inner[j], s);
      var i :| 0 <= i < |outer| && Accepts(outer[i], inner[j]);
      AcceptedTextIsIncluded(outer[i], inner[j]);
      assert Accepts(outer[i], s);
    }
  }

  /** The covering answer against outer is right about the inner list. */
  ghost predicate CoverageHolds(outer: seq<Text>, inner: seq<Text>) {
    PatternsCover(outer, inner) ==> forall s: Text :: StarFree(s) && Admits(inner, s) ==> Admits(outer, s)
  }

  function Longest(ps: seq<Text>): (n: nat)
    ensures forall i :: 0 <= i < |ps| ==> |ps[i]| <= n
  {
    if ps == [] then 0
    else
      var n := Longest(ps[1..]);
      assert forall i :: 1 <= i < |ps| ==> ps[i] == ps[1..][i - 1];
      if |ps[0]| > n then |ps[0]| else n
  }

  /** A starred pattern, with every `*` in its list made a `?`, is covered as text by
      a list that accepts texts of bounded length only. */
  lemma QuestionedList(inner: seq<Text>, i: nat) returns (outer: seq<Text>)
    requires i < |inner| && !StarFree(inner[i])
    ensures !CoverageHolds(outer, inner)
  {
    outer := seq(|inner|, k requires 0 <= k < |inner| => Replaced(inner[k], STAR, QUESTION));
    var s := LongText(inner[i], Longest(inner));
    forall k | 0 <= k < |inner| ensures Accepts(outer[k], inner[k]) && !Accepts(outer[k], s) {
      AcceptsPointwise(outer[k], inner[k]);
      StarFreePatternIsExact(outer[k], s);
    }
    assert Admits(inner, s) && !Admits(outer, s);
    assert PatternsCover(outer, inner);
  }

  /** An inner list's coverage can be trusted whatever list covers it exactly when none
      of its patterns has a star. */
  lemma ListCoverageExactness(inner: seq<Text>)
    ensures (forall outer: seq<Text> :: CoverageHolds(outer, inner)) <==>
              (forall i :: 0 <= i < |inner| ==> StarFree(inner[i]))
  {
    if forall i :: 0 <= i < |inner| ==> StarFree(inner[i]) {
      forall outer: seq<Text> ensures CoverageHolds(outer, inner) {
        if PatternsCover(outer, inner) {
          forall s: Text | StarFree(s) && Admits(inner, s) ensures Admits(outer, s) {
            PatternsCoverIsInclusion(outer, inner, s);
          }
        }
      }
    } else {
      var i :| 0 <= i < |inner| && !StarFree(inner[i]);
      var outer := QuestionedList(inner, i);
    }
  }

  /** Every plain request the inner rule matches, a covering rule matches too. */
  lemma CoveringRuleMatches(outer: Rule, inner: Rule, r: Request)
    requires RuleCovers(outer, inner) && RulesUnmixed(outer, inner)
    requires Plain(r) && inner.Matches(r)
    ensures outer.Matches(r)
  {
    PatternsCoverIsInclusion(outer.secrets, inner.secrets, r.ref);
    PatternsCoverIsInclusion(outer.identities, inner.identities, r.identity);
    PatternsCoverIsInclusion(outer.modes, inner.modes, r.mode);
  }

  /** A scheduled rule covers one with the same conditions, its own copy to begin with. */
  lemma ScheduledRuleCovers(r: Rule)
    ensures RuleCovers(r, r)
  {
    ListCoversItself(r.secrets);
    ListCoversItself(r.identities);
    ListCoversItself(r.modes);
  }

  lemma ListCoversItself(patterns: seq<Text>)
    ensures PatternsCover(patterns, patterns)
  {
    forall i | 0 <= i < |patterns| ensures AnyAccepts(patterns, patterns[i]) {
      AcceptsItself(patterns[i]);
    }
  }

  function Unscheduled(r: Rule): Rule { r.(weekdays := [], monthdays := [], hours := []) }

  /** A scheduled rule covers another exactly when it would without the schedules and both
      carry the same one, word for word. */
  lemma ScheduledCoverExactness(outer: Rule, inner: Rule)
    requires Scheduled(outer)
    ensures RuleCovers(outer, inner) <==>
              && RuleCovers(Unscheduled(outer), Unscheduled(inner))
              && inner == inner.(weekdays := outer.weekdays, monthdays := outer.monthdays, hours := outer.hours)
  {
  }

  // ----- Unreachable rules -----

  /** The first rule before i that covers rule i, or -1. */
  function CoveredBy(rules: seq<Rule>, i: nat): (c: int)
    requires i < |rules|
    ensures -1 <= c < i
    ensures c >= 0 ==> RuleCovers(rules[c], rules[i])
    ensures forall j :: 0 <= j < (if c < 0 then i else c) ==> !RuleCovers(rules[j], rules[i])
  {
    CoveredFrom(rules, i, 0)
  }

  function CoveredFrom(rules: seq<Rule>, i: nat, j: nat): (c: int)
    requires j <= i < |rules|
    requires forall k :: 0 <= k < j ==> !RuleCovers(rules[k], rules[i])
    ensures -1 <= c < i
    ensures c >= 0 ==> RuleCovers(rules[c], rules[i])
    ensures forall k :: 0 <= k < (if c < 0 then i else c) ==> !RuleCovers(rules[k], rules[i])
    decreases i - j
  {
    if j == i then -1
    else if RuleCovers(rules[j], rules[i]) then j
    else CoveredFrom(rules, i, j + 1)
  }

  /** Index i of the shortened list, in the original one. */
  function Unshift(i: int, removed: nat): int { if i < removed then i else i + 1 }

  function Without(p: Policy, i: nat): Policy
    requires i < |p.rules|
  {
    p.(rules := p.rules[..i] + p.rules[i + 1..])
  }

  /** A rule that some earlier rule covers decides no plain request, with or without an agent. */
  lemma CoveredRuleNeverDecides(p: Policy, i: nat, r: Request)
    requires i < |p.rules| && CoveredBy(p.rules, i) >= 0
    requires RulesUnmixed(p.rules[CoveredBy(p.rules, i)], p.rules[i])
    requires Plain(r)
    ensures Evaluate(p, r).rule != i
  {
    var c := CoveredBy(p.rules, i);
    EvaluateIsFirstMatch(p, r);
    if p.rules[i].Matches(r) {
      CoveringRuleMatches(p.rules[c], p.rules[i], r);
    }
  }

  /** Deleting a rule leaves alone every request it does not decide. */
  lemma DeletionKeepsDecision(p: Policy, i: nat, r: Request)
    requires i < |p.rules| && Evaluate(p, r).rule != i
    ensures var d, d' := Evaluate(p, r), Evaluate(Without(p, i), r);
            && d'.allow == d.allow && d'.agentDenied == d.agentDenied
            && d.rule == if d'.rule < 0 then -1 else Unshift(d'.rule, i)
  {
    hide Evaluate, Rule.Matches, Rule.Outcome;
    var q, rule := Without(p, i), Evaluate(p, r).rule;
    EvaluateIsFirstMatch(p, r);
    forall j | 0 <= j < |q.rules| ensures q.rules[j] == p.rules[Unshift(j, i)] {
    }
    var k := if rule < i then rule else rule - 1;
    assert IsFirstMatch(q.rules, r, k);
    EvaluateIsFirstMatch(q, r);
  }

  /** So a covered rule can be deleted without changing the decision, or the deciding
      rule, of any plain request. */
  lemma CoveredRuleIsDead(p: Policy, i: nat, r: Request)
    requires i < |p.rules| && CoveredBy(p.rules, i) >= 0
    requires RulesUnmixed(p.rules[CoveredBy(p.rules, i)], p.rules[i])
    requires Plain(r)
    ensures Evaluate(p, r).rule != i
    ensures var d, d' := Evaluate(p, r), Evaluate(Without(p, i), r);
            && d'.allow == d.allow && d'.agentDenied == d.agentDenied
            && d.rule == if d'.rule < 0 then -1 else Unshift(d'.rule, i)
  {
    CoveredRuleNeverDecides(p, i, r);
    DeletionKeepsDecision(p, i, r);
  }

  // ----- Outcomes in both contexts -----

  /** Whether two rules decide differently for a request with, or without, an agent. */
  predicate OutcomesDiffer(a: Rule, b: Rule) {
    a.Outcome(false) != b.Outcome(false) || a.Outcome(true) != b.Outcome(true)
  }

  function Swapped(p: Policy, i: nat): Policy
    requires i + 1 < |p.rules|
  {
    p.(rules := p.rules[i := p.rules[i + 1]][i + 1 := p.rules[i]])
  }

  /** Two neighbours with the same outcome in both contexts may change places: order
      does not change the result. */
  lemma SameOutcomesCommute(p: Policy, i: nat, r: Request)
    requires i + 1 < |p.rules| && !OutcomesDiffer(p.rules[i], p.rules[i + 1])
    ensures Evaluate(Swapped(p, i), r).allow == Evaluate(p, r).allow
  {
    SwapMovesFirstMatch(p, i, r);
  }

  lemma SwapMovesFirstMatch(p: Policy, i: nat, r: Request)
    requires i + 1 < |p.rules|
    ensures var d := Evaluate(p, r);
            var d' := Evaluate(Swapped(p, i), r);
            if p.rules[i].Matches(r) && p.rules[i + 1].Matches(r) then d.rule == d'.rule <= i
            else d'.rule == (if d.rule == i then i + 1 else if d.rule == i + 1 then i else d.rule)
    ensures IsFirstMatch(p.rules, r, Evaluate(p, r).rule)
    ensures var d := Evaluate(p, r); d.allow == (d.rule >= 0 && p.rules[d.rule].Outcome(r.agent != []))
    ensures var q := Swapped(p, i); var d := Evaluate(q, r);
            d.allow == (d.rule >= 0 && q.rules[d.rule].Outcome(r.agent != []))
  {
    var q := Swapped(p, i);
    EvaluateIsFirstMatch(p, r);
    EvaluateIsFirstMatch(q, r);
    var k := Evaluate(p, r).rule;
    var both := p.rules[i].Matches(r) && p.rules[i + 1].Matches(r);
    var k' := if both then k else if k == i then i + 1 else if k == i + 1 then i else k;
    assert forall j :: 0 <= j < |p.rules| && j != i && j != i + 1 ==> q.rules[j] == p.rules[j];
    assert IsFirstMatch(q.rules, r, k');
    FirstMatchDecides(q, r, k');
  }

  // ----- Intersection -----

  predicate SecretsOverlap(a: seq<Text>, b: seq<Text>) {
    || a == []
    || b == []
    || exists i, j :: 0 <= i < |a| && 0 <= j < |b| && TextsOverlap(a[i], b[j])
  }

  predicate WeekdaySetsOverlap(a: seq<Text>, b: seq<Text>) {
    exists i, j :: 0 <= i < |a| && 0 <= j < |b| && WeekdayNum(a[i]).Some? && WeekdayNum(a[i]) == WeekdayNum(b[j])
  }

  predicate SchedulesMayOverlap(a: Rule, b: Rule) {
    && (a.weekdays == [] || b.weekdays == [] || WeekdaySetsOverlap(a.weekdays, b.weekdays))
    && (a.monthdays == [] || b.monthdays == [] || exists i :: 0 <= i < |a.monthdays| && a.monthdays[i] in b.monthdays)
  }

  predicate RulesIntersect(a: Rule, b: Rule) {
    && SecretsOverlap(a.secrets, b.secrets)
    && SecretsOverlap(a.identities, b.identities)
    && SecretsOverlap(a.modes, b.modes)
    && SchedulesMayOverlap(a, b)
  }

  /** Pattern pairs on which the overlap test decides: one of them a literal, or both
      a literal with at most one star at the end. */
  predicate Decidable(a: seq<Text>, b: seq<Text>) {
    forall i, j :: 0 <= i < |a| && 0 <= j < |b| ==>
      Literal(a[i]) || Literal(b[j]) || (Prefixed(a[i]) && Prefixed(b[j]))
  }

  lemma AnyPatternHasText(a: seq<Text>) returns (s: Text)
    ensures StarFree(s) && Admits(a, s)
  {
    s := [];
    if a != [] {
      s := Sample(a[0]);
      AcceptsItself(a[0]);
      AcceptsIsSound(a[0], a[0]);
      SampleIsCommon(a[0], a[0]);
    }
  }

  /** A yes always comes with a common star-free text. */
  lemma OverlapHasCommonText(a: seq<Text>, b: seq<Text>) returns (s: Text)
    requires SecretsOverlap(a, b)
    ensures StarFree(s) && Admits(a, s) && Admits(b, s)
  {
    if a == [] {
      s := AnyPatternHasText(b);
    } else if b == [] {
      s := AnyPatternHasText(a);
    } else {
      var i, j :| 0 <= i < |a| && 0 <= j < |b| && TextsOverlap(a[i], b[j]);
      TextOverlapIsReal(a[i], b[j]);
      s :| StarFree(s) && Accepts(a[i], s) && Accepts(b[j], s);
    }
  }

  /** On decidable pattern lists the overlap test says yes exactly when a common ref exists. */
  lemma SecretsOverlapIsExact(a: seq<Text>, b: seq<Text>)
    requires Decidable(a, b)
    ensures SecretsOverlap(a, b) <==> exists s: Text :: StarFree(s) && Admits(a, s) && Admits(b, s)
  {
    if SecretsOverlap(a, b) {
      var s := OverlapHasCommonText(a, b);
    }
    if exists s: Text :: StarFree(s) && Admits(a, s) && Admits(b, s) {
      var s: Text :| StarFree(s) && Admits(a, s) && Admits(b, s);
      if a != [] && b != [] {
        var i :| 0 <= i < |a| && Accepts(a[i], s);
        var j :| 0 <= j < |b| && Accepts(b[j], s);
        OverlapIsExact(a[i], b[j]);
      }
    }
  }

  lemma DisjointSchedules(a: Rule, b: Rule, t: Instant)
    requires a.MatchesTime(t) && b.MatchesTime(t)
    ensures SchedulesMayOverlap(a, b)
  {
  }

  const SOME_AGENT: Text := "agent"

  /** Two rules reported to intersect meet, at any instant in both schedules, in some plain
      request, in one of the known modes if the rules are valid; and when their outcomes
      differ the one listed first decides it. */
  lemma IntersectionIsReal(a: Rule, b: Rule, t: Instant) returns (r: Request)
    requires RulesIntersect(a, b) && a.MatchesTime(t) && b.MatchesTime(t)
    ensures Meets(a, b, r) && r.time == t
    ensures ValidRule(a) && ValidRule(b) ==> KnownMode(r.mode)
    ensures OutcomesDiffer(a, b) ==> OrderDecides(a, b, r)
  {
    hide Accepts, TextsOverlap, SecretsOverlap, Admits, Rule.MatchesTime, StarFree, ValidRule, KnownMode;
    var ref := OverlapHasCommonText(a.secrets, b.secrets);
    var identity := OverlapHasCommonText(a.identities, b.identities);
    var mode := CommonMode(a, b);
    r := Request(ref, identity, mode, t, if a.Outcome(false) != b.Outcome(false) then [] else SOME_AGENT);
    hide Admits, SecretsOverlap, Rule.MatchesTime, Meets, OrderDecides, StarFree;
    CommonRequest(a, b, r);
    if OutcomesDiffer(a, b) {
      FirstListedDecides(a, b, r);
    }
  }

  lemma CommonMode(a: Rule, b: Rule) returns (mode: Text)
    requires SecretsOverlap(a.modes, b.modes)
    ensures StarFree(mode) && Admits(a.modes, mode) && Admits(b.modes, mode)
    ensures ValidRule(a) && ValidRule(b) ==> KnownMode(mode)
  {
    hide Accepts, TextsOverlap, KnownMode, WeekdayNum, ParseHours;
    if ValidRule(a) && ValidRule(b) {
      if a.modes != [] && b.modes != [] {
        var i, j :| 0 <= i < |a.modes| && 0 <= j < |b.modes| && TextsOverlap(a.modes[i], b.modes[j]);
        KnownModesOverlap(a.modes[i], b.modes[j]);
        mode := a.modes[i];
      } else {
        var modes := if a.modes == [] then b.modes else a.modes;
        GetIsKnown();
        mode := if modes == [] then GET else modes[0];
      }
      KnownModeIsText(mode);
    } else {
      mode := OverlapHasCommonText(a.modes, b.modes);
    }
  }

  lemma GetIsKnown()
    ensures KnownMode(GET)
  {
  }

  lemma KnownModeIsText(m: Text)
    requires KnownMode(m)
    ensures StarFree(m) && Accepts(m, m)
  {
    AcceptsItself(m);
    hide Accepts;
  }

  lemma KnownModesOverlap(m: Text, n: Text)
    requires KnownMode(m) && KnownMode(n) && TextsOverlap(m, n)
    ensures m == n
  {
    assert GET[0] == 'g' && EXEC[0] == 'e' && MOUNT[0] == 'm';
  }

  lemma CommonRequest(a: Rule, b: Rule, r: Request)
    requires StarFree(r.ref) && StarFree(r.identity) && StarFree(r.mode)
    requires Admits(a.secrets, r.ref) && Admits(a.identities, r.identity) && Admits(a.modes, r.mode)
    requires Admits(b.secrets, r.ref) && Admits(b.identities, r.identity) && Admits(b.modes, r.mode)
    requires a.MatchesTime(r.time) && b.MatchesTime(r.time)
    ensures Meets(a, b, r) && a.Matches(r) && b.Matches(r)
  {
    hide Rule.MatchesTime, Accepts, StarFree;
  }

  lemma FirstListedDecides(a: Rule, b: Rule, r: Request)
    requires a.Matches(r) && b.Matches(r) && a.Outcome(r.agent != []) != b.Outcome(r.agent != [])
    ensures OrderDecides(a, b, r)
  {
    hide Evaluate, Rule.Matches, Rule.Outcome;
    FirstMatchDecides(Policy(1, [a, b]), r, 0);
    FirstMatchDecides(Policy(1, [b, a]), r, 0);
  }

  /** A plain request that both rules match. */
  predicate Meets(a: Rule, b: Rule, r: Request) { Plain(r) && a.Matches(r) && b.Matches(r) }

  predicate OrderDecides(a: Rule, b: Rule, r: Request) {
    Evaluate(Policy(1, [a, b]), r).allow != Evaluate(Policy(1, [b, a]), r).allow
  }

  predicate WindowsMeet(start: nat, end: nat, start': nat, end': nat) {
    InWindow(start, end, start') || InWindow(start', end', start)
  }

  /** What the schedule test leaves out: whether some minute is in both hours windows. */
  predicate HoursMeet(a: Text, b: Text) {
    && (a == [] || ParseHours(a).Some?)
    && (b == [] || ParseHours(b).Some?)
    && (a == [] || b == [] ||
        var (x, y) := (ParseHours(a).value, ParseHours(b).value);
        WindowsMeet(x.0, x.1, y.0, y.1))
  }

  lemma WindowsMeetExactness(start: nat, end: nat, start': nat, end': nat)
    requires start < DAY && end < DAY && start' < DAY && end' < DAY
    ensures WindowsMeet(start, end, start', end') <==>
              exists m: Minute :: InWindow(start, end, m) && InWindow(start', end', m)
  {
    if WindowsMeet(start, end, start', end') {
      var m: Minute := if InWindow(start, end, start') then start' else start;
      assert InWindow(start, end, m) && InWindow(start', end', m);
    }
  }

  predicate InHours(hours: Text, m: Minute) { hours == [] || HoursMatch(hours, m) }

  lemma HoursMeetExactness(a: Text, b: Text)
    ensures HoursMeet(a, b) <==> exists m: Minute :: InHours(a, m) && InHours(b, m)
  {
    hide ParseHours, InWindow, WindowsMeet;
    if a != [] && b != [] && ParseHours(a).Some? && ParseHours(b).Some? {
      var (x, y) := (ParseHours(a).value, ParseHours(b).value);
      WindowsMeetExactness(x.0, x.1, y.0, y.1);
      assert forall m: Minute :: InHours(a, m) && InHours(b, m) <==> InWindow(x.0, x.1, m) && InWindow(y.0, y.1, m);
    } else if HoursMeet(a, b) {
      var hours := if a == [] then b else a;
      var m: Minute := if hours == [] then 0 else ParseHours(hours).value.0;
      if hours != [] {
        StartInWindow(ParseHours(hours).value.0, ParseHours(hours).value.1);
      }
      assert InHours(a, m) && InHours(b, m);
    }
  }

  lemma StartInWindow(start: nat, end: nat)
    ensures InWindow(start, end, start)
  {
  }

  /** Two valid schedules share an instant exactly when the schedule test says they may
      and their hours meet. */
  lemma ScheduleExactness(a: Rule, b: Rule)
    requires ValidRule(a) && ValidRule(b)
    ensures SchedulesMayOverlap(a, b) && HoursMeet(a.hours, b.hours)
            <==> exists t: Instant :: a.MatchesTime(t) && b.MatchesTime(t)
  {
    HoursMeetExactness(a.hours, b.hours);
    hide HoursMeet, HoursMatch, WeekdayNum;
    if SchedulesMayOverlap(a, b) && HoursMeet(a.hours, b.hours) {
      var weekday := SharedWeekday(a, b);
      var monthday := SharedMonthday(a, b);
      var m: Minute :| InHours(a.hours, m) && InHours(b.hours, m);
      var t := Instant(weekday, monthday, m);
      assert a.MatchesTime(t) && b.MatchesTime(t);
    }
    if t: Instant :| a.MatchesTime(t) && b.MatchesTime(t) {
      DisjointSchedules(a, b, t);
      assert InHours(a.hours, t.minute) && InHours(b.hours, t.minute);
    }
  }

  lemma SharedWeekday(a: Rule, b: Rule) returns (day: Weekday)
    requires ValidRule(a) && ValidRule(b) && SchedulesMayOverlap(a, b)
    ensures a.weekdays == [] || WeekdayListed(a.weekdays, day)
    ensures b.weekdays == [] || WeekdayListed(b.weekdays, day)
  {
    hide WeekdayNum, ParseHours;
    if a.weekdays != [] && b.weekdays != [] {
      var i, j :| 0 <= i < |a.weekdays| && 0 <= j < |b.weekdays|
                  && WeekdayNum(a.weekdays[i]).Some? && WeekdayNum(a.weekdays[i]) == WeekdayNum(b.weekdays[j]);
      day := WeekdayNum(a.weekdays[i]).value;
    } else {
      var names := if a.weekdays == [] then b.weekdays else a.weekdays;
      day := if names == [] then 0 else WeekdayNum(names[0]).value;
    }
  }

  lemma SharedMonthday(a: Rule, b: Rule) returns (day: Monthday)
    requires ValidRule(a) && ValidRule(b) && SchedulesMayOverlap(a, b)
    ensures (a.monthdays == [] || day in a.monthdays) && (b.monthdays == [] || day in b.monthdays)
  {
    if a.monthdays != [] && b.monthdays != [] {
      var i :| 0 <= i < |a.monthdays| && a.monthdays[i] in b.monthdays;
      day := a.monthdays[i];
    } else {
      var days := if a.monthdays == [] then b.monthdays else a.monthdays;
      day := if days == [] then 1 else days[0];
    }
  }

  /** A reported intersection of valid rules is real, on any patterns, exactly when their
      hours meet: the one thing the test does not look at. */
  lemma IntersectionExactness(a: Rule, b: Rule)
    requires ValidRule(a) && ValidRule(b) && RulesIntersect(a, b)
    ensures HoursMeet(a.hours, b.hours) <==> exists r: Request :: Meets(a, b, r)
    ensures HoursMeet(a.hours, b.hours) ==>
              exists r: Request ::
                Meets(a, b, r) && KnownMode(r.mode) && (OutcomesDiffer(a, b) ==> OrderDecides(a, b, r))
  {
    ScheduleExactness(a, b);
    hide HoursMeet, SecretsOverlap, SchedulesMayOverlap, ValidRule, OrderDecides, Rule.MatchesTime, KnownMode;
    if HoursMeet(a.hours, b.hours) {
      var t: Instant :| a.MatchesTime(t) && b.MatchesTime(t);
      var r := IntersectionIsReal(a, b, t);
    }
    if r: Request :| Meets(a, b, r) {
      assert a.MatchesTime(r.time) && b.MatchesTime(r.time);
    }
  }

  /** Morning and afternoon: two rules alike but for hours that do not meet are reported to
      intersect, and no request matches both. */
  lemma DisjointHoursIntersect(rule: Rule, start: nat, end: nat, start': nat, end': nat)
    requires ValidRule(rule) && start <= end < start' <= end' < DAY
    ensures var a, b := rule.(hours := Hours(start, end)), rule.(hours := Hours(start', end'));
            ValidRule(a) && ValidRule(b) && RulesIntersect(a, b) && forall r: Request :: !Meets(a, b, r)
  {
    var a, b := rule.(hours := Hours(start, end)), rule.(hours := Hours(start', end'));
    HoursRoundTrip(start, end);
    HoursRoundTrip(start', end');
    hide *;
    OtherHoursStayValid(rule, Hours(start, end));
    OtherHoursStayValid(rule, Hours(start', end'));
    AlikeButForHours(a, b);
  }

  lemma ApartHours(a: Text, b: Text)
    requires a != [] && b != [] && ParseHours(a).Some? && ParseHours(b).Some?
    requires ParseHours(a).value.0 <= ParseHours(a).value.1 < ParseHours(b).value.0 <= ParseHours(b).value.1
    ensures !HoursMeet(a, b)
  {
    hide ParseHours;
  }

  lemma OtherHoursStayValid(rule: Rule, hours: Text)
    requires ValidRule(rule) && ParseHours(hours).Some?
    ensures ValidRule(rule.(hours := hours))
  {
    hide ParseHours, WeekdayNum, KnownMode;
  }

  lemma AlikeButForHours(a: Rule, b: Rule)
    requires ValidRule(a) && ValidRule(b) && a == b.(hours := a.hours) && a.hours != [] && b.hours != []
    requires var (x, y) := (ParseHours(a.hours).value, ParseHours(b.hours).value);
             x.0 <= x.1 < y.0 <= y.1
    ensures RulesIntersect(a, b) && forall r: Request :: !Meets(a, b, r)
  {
    OverlapsItself(a.secrets);
    OverlapsItself(a.identities);
    OverlapsItself(a.modes);
    SameDaysOverlap(a, b);
    ApartHours(a.hours, b.hours);
    hide SecretsOverlap, SchedulesMayOverlap, ValidRule, HoursMeet, Meets, OutcomesDiffer;
    IntersectionExactness(a, b);
  }

  lemma SameDaysOverlap(a: Rule, b: Rule)
    requires ValidRule(a) && a.weekdays == b.weekdays && a.monthdays == b.monthdays
    ensures SchedulesMayOverlap(a, b)
  {
    if a.weekdays != [] {
      assert WeekdayNum(a.weekdays[0]).Some?;
    }
    if a.monthdays != [] {
      assert a.monthdays[0] in b.monthdays;
    }
  }

  lemma OverlapsItself(patterns: seq<Text>)
    ensures SecretsOverlap(patterns, patterns)
  {
    if patterns != [] {
      AcceptsItself(patterns[0]);
      assert TextsOverlap(patterns[0], patterns[0]);
    }
  }

  predicate RulesDecidable(a: Rule, b: Rule) {
    && Decidable(a.secrets, b.secrets)
    && Decidable(a.identities, b.identities)
    && Decidable(a.modes, b.modes)
  }

  /** Rules on decidable patterns reported not to intersect share no plain request, so
      neighbours among them may change places without changing any such decision. */
  lemma DisjointRulesCommute(p: Policy, i: nat, r: Request)
    requires i + 1 < |p.rules| && Plain(r)
    requires RulesDecidable(p.rules[i], p.rules[i + 1]) && !RulesIntersect(p.rules[i], p.rules[i + 1])
    ensures !(p.rules[i].Matches(r) && p.rules[i + 1].Matches(r))
    ensures Evaluate(Swapped(p, i), r).allow == Evaluate(p, r).allow
  {
    var a, b := p.rules[i], p.rules[i + 1];
    if a.Matches(r) && b.Matches(r) {
      SecretsOverlapIsExact(a.secrets, b.secrets);
      SecretsOverlapIsExact(a.identities, b.identities);
      SecretsOverlapIsExact(a.modes, b.modes);
      DisjointSchedules(a, b, r.time);
    }
    SwapMovesFirstMatch(p, i, r);
  }
}
