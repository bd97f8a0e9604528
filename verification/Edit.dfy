/** Building a grant, working out where it can go, and inserting it (internal/policy/edit.go). */
module Edit {
  import opened Bytes
  import opened GlobLaws
  import opened Policy
  import opened Coverage
  import opened Leak

  // ----- Building a grant -----

  datatype GrantRequest = GrantRequest(
    tool: Text, goal: Text, secrets: seq<Text>, identities: seq<Text>, modes: seq<Text>,
    weekdays: seq<Text>, monthdays: seq<int>, hours: Text)

  const DEFAULT_MODES: seq<Text> := [EXEC, MOUNT]

  datatype GrantError = NoSecrets | NoIdentities | UnknownMode | InvalidRule

  datatype Grant = Built(rule: Rule) | Refused(error: GrantError)

  function GrantModes(g: GrantRequest): seq<Text> { if g.modes == [] then DEFAULT_MODES else g.modes }

  predicate GrantsRawGet(g: GrantRequest) { GET in GrantModes(g) }

  function DescribeGrant(g: GrantRequest): Text {
    if g.tool != [] && g.goal != [] then g.tool + ": " + g.goal
    else if g.tool != [] then g.tool
    else g.goal
  }

  function BuildGrantRule(g: GrantRequest): (result: Grant)
    ensures result.Built? ==>
              var r := result.rule;
              && r.allow && !r.denyAgents && r.secrets != [] && r.identities != [] && r.modes != []
              && ValidRule(r)
  {
    if g.secrets == [] then Refused(NoSecrets)
    else if g.identities == [] then Refused(NoIdentities)
    else
      var modes := GrantModes(g);
      if exists i :: 0 <= i < |modes| && !KnownMode(modes[i]) then Refused(UnknownMode)
      else
        var r := Rule(true, DescribeGrant(g), g.secrets, g.identities, modes, g.weekdays, g.monthdays, g.hours, false);
        if ValidPolicy(Policy(SCHEMA_VERSION, [r])) then
          assert ValidRule([r][0]);
          Built(r)
        else Refused(InvalidRule)
  }

  /** A request builds a grant exactly when it names secrets and identities and every mode
      and schedule in it is one the policy knows; and the grant matches exactly what was
      asked for. */
  lemma GrantIsWhatWasAsked(g: GrantRequest, r: Request)
    requires KnownMode(r.mode)
    ensures BuildGrantRule(g).Built? <==>
              && g.secrets != [] && g.identities != []
              && (forall m :: m in g.modes ==> KnownMode(m))
              && (g.hours == [] || ParseHours(g.hours).Some?)
              && (forall d :: d in g.weekdays ==> WeekdayNum(d).Some?)
              && (forall d :: d in g.monthdays ==> 1 <= d <= 31)
    ensures BuildGrantRule(g).Built? ==>
              (BuildGrantRule(g).rule.Matches(r) <==>
                 && AnyAccepts(g.secrets, r.ref) && AnyAccepts(g.identities, r.identity)
                 && (if g.modes == [] then r.mode != GET else r.mode in g.modes)
                 && (g.weekdays == [] || WeekdayListed(g.weekdays, r.time.weekday))
                 && (g.monthdays == [] || r.time.monthday in g.monthdays)
                 && (g.hours == [] || HoursMatch(g.hours, r.time.minute)))
  {
    hide ParseHours, WeekdayNum, HoursMatch, WeekdayListed;
    assert GET[0] == 'g' && EXEC[0] == 'e' && MOUNT[0] == 'm';
    GrantBuilds(g);
    if BuildGrantRule(g).Built? {
      var rule := BuildGrantRule(g).rule;
      if rule.Matches(r) {
        ModeListIsAllowlist(rule, r);
      }
      if r.mode in rule.modes {
        AcceptsItself(r.mode);
      }
    }
  }

  lemma GrantBuilds(g: GrantRequest)
    ensures BuildGrantRule(g).Built? <==>
              && g.secrets != [] && g.identities != []
              && (forall m :: m in g.modes ==> KnownMode(m))
              && (g.hours == [] || ParseHours(g.hours).Some?)
              && (forall d :: d in g.weekdays ==> WeekdayNum(d).Some?)
              && (forall d :: d in g.monthdays ==> 1 <= d <= 31)
  {
    hide ParseHours, WeekdayNum;
    var modes := GrantModes(g);
    var r := Rule(true, DescribeGrant(g), g.secrets, g.identities, modes, g.weekdays, g.monthdays, g.hours, false);
    assert ValidPolicy(Policy(SCHEMA_VERSION, [r])) <==> ValidRule(r) by {
      assert [r][0] == r;
    }
    assert (forall m :: m in g.modes ==> KnownMode(m)) <==> forall i :: 0 <= i < |modes| ==> KnownMode(modes[i]) by {
      assert g.modes == [] ==> modes == [EXEC, MOUNT];
    }
    assert (forall d :: d in g.weekdays ==> WeekdayNum(d).Some?) <==>
           (forall i :: 0 <= i < |g.weekdays| ==> WeekdayNum(g.weekdays[i]).Some?);
    assert forall i :: 0 <= i < |g.monthdays| ==> g.monthdays[i] in g.monthdays;
    assert ValidRule(r) <==>
           && (forall m :: m in modes ==> KnownMode(m))
           && (g.hours == [] || ParseHours(g.hours).Some?)
           && (forall d :: d in g.weekdays ==> WeekdayNum(d).Some?)
           && (forall d :: d in g.monthdays ==> 1 <= d <= 31);
  }

  /** A grant hands out raw values exactly when get was named: saying nothing about modes
      never means get. */
  lemma GrantPermitsGetOnlyWhenNamed(g: GrantRequest)
    requires BuildGrantRule(g).Built?
    ensures PermitsGet(BuildGrantRule(g).rule) <==> GrantsRawGet(g)
    ensures GrantsRawGet(g) <==> GET in g.modes
  {
  }

  // ----- Inserting -----

  function InsertRule(p: Policy, r: Rule, i: int): (q: Option<Policy>)
    ensures q.Some? <==> 0 <= i <= |p.rules|
    ensures q.Some? ==> |q.value.rules| == |p.rules| + 1
  {
    if i < 0 || i > |p.rules| then None
    else Some(Policy(if p.schema == 0 then SCHEMA_VERSION else p.schema, p.rules[..i] + [r] + p.rules[i..]))
  }

  /** Inserting a valid rule into a valid policy gives one that will load. */
  lemma InsertionStaysValid(p: Policy, r: Rule, i: int)
    requires ValidPolicy(p) && ValidRule(r) && InsertRule(p, r, i).Some?
    ensures ValidPolicy(InsertRule(p, r, i).value) && InsertRule(p, r, i).value.schema == SCHEMA_VERSION
  {
    hide ValidRule;
  }

  /** Where rule k of the old list stands after an insertion at i. */
  function Shift(k: int, i: int): int { if k < i then k else k + 1 }

  /** A request is decided after the insertion as before it, unless it matches the new
      rule and no rule above that one. */
  lemma InsertionDecides(p: Policy, rule: Rule, i: nat, r: Request)
    requires i <= |p.rules|
    ensures var old_, now := Evaluate(p, r), Evaluate(InsertRule(p, rule, i).value, r);
            if rule.Matches(r) && (old_.rule < 0 || old_.rule >= i) then
              now.rule == i && now.allow == rule.Outcome(r.agent != [])
            else
              now.rule == Shift(old_.rule, i) && now.allow == old_.allow && now.agentDenied == old_.agentDenied
  {
    var q, k := InsertRule(p, rule, i).value, Evaluate(p, r).rule;
    EvaluateIsFirstMatch(p, r);
    forall j | 0 <= j < |p.rules| ensures q.rules[Shift(j, i)] == p.rules[j] {
    }
    assert q.rules[i] == rule;
    var k' := if rule.Matches(r) && (k < 0 || k >= i) then i else if k < 0 then -1 else Shift(k, i);
    forall j | 0 <= j < (if k' < 0 then |q.rules| else k') ensures !q.rules[j].Matches(r) {
      if j > i {
        assert q.rules[j] == p.rules[j - 1];
      }
    }
    assert IsFirstMatch(q.rules, r, k');
    EvaluateIsFirstMatch(q, r);
    FirstMatchDecides(q, r, k');
  }

  /** Inserting a built grant, wherever it goes, revokes nothing, allows more only to
      requests that match it, and leaves every other request with its decision and its
      rule, one place further down if it stood at or below the insertion. */
  lemma GrantOnlyGrants(p: Policy, g: GrantRequest, i: nat, r: Request)
    requires BuildGrantRule(g).Built? && i <= |p.rules|
    ensures var rule := BuildGrantRule(g).rule;
            var old_, now := Evaluate(p, r), Evaluate(InsertRule(p, rule, i).value, r);
            && (old_.allow ==> now.allow)
            && (now.allow && !old_.allow ==> rule.Matches(r) && now.rule == i)
            && (!rule.Matches(r) ==> now.allow == old_.allow && now.rule == Shift(old_.rule, i))
  {
    InsertionDecides(p, BuildGrantRule(g).rule, i, r);
  }

  // ----- Placement -----

  /** The existing rule swallows the proposal and decides the other way. */
  predicate Blocks(existing: Rule, proposed: Rule) {
    existing.allow != proposed.allow && RulesIntersect(existing, proposed) && RuleCovers(existing, proposed)
  }

  /** The proposal swallows the existing rule, which decides the other way. */
  predicate Swallowed(existing: Rule, proposed: Rule) {
    && existing.allow != proposed.allow
    && RulesIntersect(existing, proposed)
    && !RuleCovers(existing, proposed)
    && RuleCovers(proposed, existing)
  }

  predicate Ambiguous(existing: Rule, proposed: Rule) {
    && existing.allow != proposed.allow
    && RulesIntersect(existing, proposed)
    && !RuleCovers(existing, proposed)
    && !RuleCovers(proposed, existing)
  }

  /** Inserting at i leaves the proposal above every rule among the first n that would
      silence it and below every one it would silence. */
  predicate Fits(rules: seq<Rule>, n: nat, proposed: Rule, i: int)
    requires n <= |rules|
  {
    && (forall k :: 0 <= k < n && Blocks(rules[k], proposed) ==> i <= k)
    && (forall k :: 0 <= k < n && Swallowed(rules[k], proposed) ==> k < i)
  }

  predicate SafePosition(p: Policy, proposed: Rule, i: int) {
    0 <= i <= |p.rules| && Fits(p.rules, |p.rules|, proposed, i)
  }

  datatype PlacementError = PartialOverlap | NoRoom

  datatype Placement = Placement(
    index: int, low: int, high: int,
    blockedBy: seq<int>, wouldBlock: seq<int>, ambiguous: seq<int>,
    coveredBy: int, error: Option<PlacementError>)
  {
    predicate Redundant() { coveredBy >= 0 }
  }

  datatype Relation = Blocking | Swallowing | Overlapping

  predicate Related(kind: Relation, existing: Rule, proposed: Rule) {
    match kind
    case Blocking => Blocks(existing, proposed)
    case Swallowing => Swallowed(existing, proposed)
    case Overlapping => Ambiguous(existing, proposed)
  }

  /** indices names the first n rules so related to the proposal, in order. */
  ghost predicate Names(indices: seq<int>, kind: Relation, rules: seq<Rule>, n: nat, proposed: Rule)
    requires n <= |rules|
  {
    && (forall k :: k in indices ==> 0 <= k < n)
    && (forall k :: 0 <= k < n ==> (k in indices <==> Related(kind, rules[k], proposed)))
    && (forall a, b :: 0 <= a < b < |indices| ==> indices[a] < indices[b])
  }

  /** The first rule that covers the proposal with the same allow, or -1. */
  ghost predicate IsCoveredBy(rules: seq<Rule>, n: nat, proposed: Rule, c: int)
    requires n <= |rules|
  {
    && -1 <= c < n
    && (c >= 0 ==> rules[c].allow == proposed.allow && RuleCovers(rules[c], proposed))
    && forall k :: 0 <= k < (if c < 0 then n else c) ==>
      !(rules[k].allow == proposed.allow && RuleCovers(rules[k], proposed))
  }

  /** The bounds so far: exactly the positions the first n rules allow. */
  ghost predicate Bounds(rules: seq<Rule>, n: nat, proposed: Rule, low: int, high: int)
    requires n <= |rules|
  {
    && 0 <= low && high <= |rules|
    && forall i :: 0 <= i <= |rules| ==> (low <= i <= high <==> Fits(rules, n, proposed, i))
  }

  lemma NamesStep(indices: seq<int>, kind: Relation, rules: seq<Rule>, n: nat, proposed: Rule)
    requires n < |rules| && Names(indices, kind, rules, n, proposed)
    ensures Names(if Related(kind, rules[n], proposed) then indices + [n] else indices, kind, rules, n + 1, proposed)
  {
    hide Related;
    if Related(kind, rules[n], proposed) {
      var now := indices + [n];
      assert forall k :: k in now <==> k in indices || k == n;
      forall a, b | 0 <= a < b < |now| ensures now[a] < now[b] {
        assert now[a] == indices[a] && indices[a] in indices;
      }
    }
  }

  lemma FitsStep(rules: seq<Rule>, n: nat, proposed: Rule, i: int)
    requires n < |rules|
    ensures Fits(rules, n + 1, proposed, i) <==>
              && Fits(rules, n, proposed, i)
              && (Blocks(rules[n], proposed) ==> i <= n)
              && (Swallowed(rules[n], proposed) ==> n < i)
  {
  }

  lemma BoundsStep(rules: seq<Rule>, n: nat, proposed: Rule, low: int, high: int)
    requires n < |rules| && Bounds(rules, n, proposed, low, high)
    ensures Bounds(rules, n + 1, proposed,
                   if Swallowed(rules[n], proposed) && n + 1 > low then n + 1 else low,
                   if Blocks(rules[n], proposed) && n < high then n else high)
  {
    var low' := if Swallowed(rules[n], proposed) && n + 1 > low then n + 1 else low;
    var high' := if Blocks(rules[n], proposed) && n < high then n else high;
    var m := n + 1;
    forall i | 0 <= i <= |rules| ensures low' <= i <= high' <==> Fits(rules, m, proposed, i) {
      FitsStep(rules, n, proposed, i);
      assert low <= i <= high <==> Fits(rules, n, proposed, i);
    }
  }

  lemma BoundsAreSafe(p: Policy, proposed: Rule, low: int, high: int)
    requires Bounds(p.rules, |p.rules|, proposed, low, high)
    ensures forall i :: SafePosition(p, proposed, i) <==> low <= i <= high
    ensures low <= high <==> exists i :: SafePosition(p, proposed, i)
  {
    if low <= high {
      assert SafePosition(p, proposed, low);
    }
  }

  lemma IndicesExist(indices: seq<int>, kind: Relation, rules: seq<Rule>, proposed: Rule)
    requires Names(indices, kind, rules, |rules|, proposed)
    ensures |indices| > 0 <==> exists k :: 0 <= k < |rules| && Related(kind, rules[k], proposed)
  {
    if |indices| > 0 {
      assert indices[0] in indices;
    }
  }

  lemma CoveredByStep(rules: seq<Rule>, n: nat, proposed: Rule, c: int)
    requires n < |rules| && IsCoveredBy(rules, n, proposed, c)
    ensures IsCoveredBy(rules, n + 1, proposed,
                        if c < 0 && rules[n].allow == proposed.allow && RuleCovers(rules[n], proposed) then n else c)
  {
    hide RuleCovers;
  }

  lemma PlacementStarts(rules: seq<Rule>, proposed: Rule)
    ensures forall kind :: Names([], kind, rules, 0, proposed)
    ensures IsCoveredBy(rules, 0, proposed, -1) && Bounds(rules, 0, proposed, 0, |rules|)
  {
    hide Related;
  }

  method AnalyzeRuleInsertion(p: Policy, proposed: Rule) returns (pl: Placement)
    ensures Names(pl.blockedBy, Blocking, p.rules, |p.rules|, proposed)
    ensures Names(pl.wouldBlock, Swallowing, p.rules, |p.rules|, proposed)
    ensures Names(pl.ambiguous, Overlapping, p.rules, |p.rules|, proposed)
    ensures IsCoveredBy(p.rules, |p.rules|, proposed, pl.coveredBy)
    ensures forall i :: SafePosition(p, proposed, i) <==> pl.low <= i <= pl.high
    ensures pl.error == Some(PartialOverlap) <==>
              exists k :: 0 <= k < |p.rules| && Related(Overlapping, p.rules[k], proposed)
    ensures pl.error == Some(NoRoom) <==>
              pl.error != Some(PartialOverlap) && !exists i :: SafePosition(p, proposed, i)
    ensures pl.error == None ==>
              SafePosition(p, proposed, pl.index) && forall i :: SafePosition(p, proposed, i) ==> pl.index <= i
  {
    hide RuleCovers, RulesIntersect, Names, Bounds, IsCoveredBy, SafePosition;
    var rules := p.rules;
    PlacementStarts(rules, proposed);
    var low, high := 0, |rules|;
    var blockedBy, wouldBlock, ambiguous: seq<int> := [], [], [];
    var coveredBy := -1;
    for i := 0 to |rules|
      invariant Names(blockedBy, Blocking, rules, i, proposed)
      invariant Names(wouldBlock, Swallowing, rules, i, proposed)
      invariant Names(ambiguous, Overlapping, rules, i, proposed)
      invariant IsCoveredBy(rules, i, proposed, coveredBy)
      invariant Bounds(rules, i, proposed, low, high)
      invariant coveredBy >= -1
    {
      var existing := rules[i];
      CoveredByStep(rules, i, proposed, coveredBy);
      NamesStep(blockedBy, Blocking, rules, i, proposed);
      NamesStep(wouldBlock, Swallowing, rules, i, proposed);
      NamesStep(ambiguous, Overlapping, rules, i, proposed);
      BoundsStep(rules, i, proposed, low, high);
      var sameOutcome := existing.allow == proposed.allow;
      if sameOutcome && coveredBy < 0 && RuleCovers(existing, proposed) {
        coveredBy := i;
      }
      if !sameOutcome && RulesIntersect(existing, proposed) {
        if RuleCovers(existing, proposed) {
          blockedBy := blockedBy + [i];
          if i < high {
            high := i;
          }
        } else if RuleCovers(proposed, existing) {
          wouldBlock := wouldBlock + [i];
          if i + 1 > low {
            low := i + 1;
          }
        } else {
          ambiguous := ambiguous + [i];
        }
      }
    }
    IndicesExist(ambiguous, Overlapping, rules, proposed);
    BoundsAreSafe(p, proposed, low, high);
    pl := Placement(0, low, high, blockedBy, wouldBlock, ambiguous, coveredBy, None);
    if |ambiguous| > 0 {
      pl := pl.(error := Some(PartialOverlap));
    } else if low > high {
      pl := pl.(error := Some(NoRoom));
    } else {
      pl := pl.(index := low);
    }
  }

  // ----- What a placement means for requests -----

  /** Rule i of the policy decides no plain request, in either context. */
  ghost predicate Dead(p: Policy, i: int) {
    forall r: Request :: Plain(r) ==> Evaluate(p, r).rule != i
  }

  lemma CoveredAboveIsDead(p: Policy, k: nat, i: nat)
    requires k < i < |p.rules| && RuleCovers(p.rules[k], p.rules[i]) && RulesUnmixed(p.rules[k], p.rules[i])
    ensures Dead(p, i)
  {
    forall r: Request | Plain(r) ensures Evaluate(p, r).rule != i {
      EvaluateIsFirstMatch(p, r);
      if p.rules[i].Matches(r) {
        CoveringRuleMatches(p.rules[k], p.rules[i], r);
      }
    }
  }

  predicate UnmixedWith(p: Policy, proposed: Rule) {
    forall k :: 0 <= k < |p.rules| ==> RulesUnmixed(p.rules[k], proposed) && RulesUnmixed(proposed, p.rules[k])
  }

  lemma BelowBlockerIsDead(p: Policy, proposed: Rule, i: nat, k: nat)
    requires k < i <= |p.rules| && Blocks(p.rules[k], proposed) && UnmixedWith(p, proposed)
    ensures Dead(InsertRule(p, proposed, i).value, i)
  {
    var q := InsertRule(p, proposed, i).value;
    assert q.rules[k] == p.rules[k] && q.rules[i] == proposed;
    CoveredAboveIsDead(q, k, i);
  }

  lemma AboveSwallowedKillsIt(p: Policy, proposed: Rule, i: nat, k: nat)
    requires i <= k < |p.rules| && Swallowed(p.rules[k], proposed) && UnmixedWith(p, proposed)
    ensures Dead(InsertRule(p, proposed, i).value, k + 1)
  {
    var q := InsertRule(p, proposed, i).value;
    assert q.rules[k + 1] == p.rules[k] && q.rules[i] == proposed;
    CoveredAboveIsDead(q, i, k + 1);
  }

  /** Why the bounds are where they are: at every other position, either the proposal is
      dead on arrival or it kills a rule it covers. */
  lemma UnsafePositionKills(p: Policy, proposed: Rule, i: nat)
    requires i <= |p.rules| && !SafePosition(p, proposed, i) && UnmixedWith(p, proposed)
    ensures var q := InsertRule(p, proposed, i).value;
            Dead(q, i) || exists k :: i <= k < |p.rules| && Swallowed(p.rules[k], proposed) && Dead(q, k + 1)
  {
    hide Dead, Blocks, Swallowed, UnmixedWith;
    if k :| 0 <= k < |p.rules| && Blocks(p.rules[k], proposed) && k < i {
      BelowBlockerIsDead(p, proposed, i, k);
    } else {
      var k :| 0 <= k < |p.rules| && Swallowed(p.rules[k], proposed) && k >= i;
      AboveSwallowedKillsIt(p, proposed, i, k);
    }
  }

  /** At a safe position, with no partial overlap, the proposal takes over only from
      rules that would have silenced it: a plain request decided by any other rule keeps
      its decision, unless that rule allows as the proposal does and differs from it in
      deny_agents. */
  lemma SafePositionDisturbsNothingElse(p: Policy, proposed: Rule, i: nat, r: Request)
    requires SafePosition(p, proposed, i) && Plain(r) && Evaluate(p, r).rule >= 0
    requires var existing := p.rules[Evaluate(p, r).rule];
             && RulesDecidable(existing, proposed)
             && !Blocks(existing, proposed) && !Ambiguous(existing, proposed)
             && (existing.allow == proposed.allow ==> !OutcomesDiffer(existing, proposed))
    ensures Evaluate(InsertRule(p, proposed, i).value, r).allow == Evaluate(p, r).allow
  {
    InsertionDecides(p, proposed, i, r);
    EvaluateIsFirstMatch(p, r);
    var k := Evaluate(p, r).rule;
    if proposed.Matches(r) && k >= i && p.rules[k].allow != proposed.allow {
      CommonRequestIntersects(p.rules[k], proposed, r);
    }
  }

  lemma CommonRequestIntersects(a: Rule, b: Rule, r: Request)
    requires RulesDecidable(a, b) && Plain(r) && a.Matches(r) && b.Matches(r)
    ensures RulesIntersect(a, b)
  {
    SecretsOverlapIsExact(a.secrets, b.secrets);
    SecretsOverlapIsExact(a.identities, b.identities);
    SecretsOverlapIsExact(a.modes, b.modes);
    DisjointSchedules(a, b, r.time);
  }

  /** Placement compares allow alone. That is a comparison of outcomes in both contexts
      exactly when the two rules are not allow-rules that differ in deny_agents. */
  lemma AllowComparisonExactness(a: Rule, b: Rule)
    ensures (a.allow == b.allow <==> !OutcomesDiffer(a, b)) <==> !(a.allow && b.allow && a.denyAgents != b.denyAgents)
  {
  }

  /** So a grant equal to an existing rule but for deny_agents is placed above it, and
      every agent request that rule refused is then allowed. */
  lemma DenyAgentsIsOverruled(grant: Rule, r: Request)
    requires grant.allow && !grant.denyAgents && grant.Matches(r) && r.agent != []
    ensures var p := Policy(1, [grant.(denyAgents := true)]);
            && SafePosition(p, grant, 0)
            && !Evaluate(p, r).allow
            && Evaluate(InsertRule(p, grant, 0).value, r).allow
  {
  }
}
