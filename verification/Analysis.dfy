/** The structural report on a policy's rule order (internal/policy/analyze.go, Analyze). */
module Analysis {
  import opened Bytes
  import opened Policy
  import opened Coverage
  import opened Leak

  datatype Severity = Warning | Error

  datatype Kind =
    | Unreachable | Redundant | Shadows | GetGranted | BypassableModes
    | AgentAssertableGet | DenyAgentsNoop | DenyAgentsIdentityScoped

  /** rule and other are rule indices, -1 where a finding has none. */
  datatype Finding = Finding(kind: Kind, severity: Severity, rule: int, other: int)

  // ----- What counts as a finding -----

  ghost predicate OrderingFinding(rules: seq<Rule>, i: nat, f: Finding)
    requires i < |rules|
  {
    var c := CoveredBy(rules, i);
    && c >= 0
    && f == if OutcomesDiffer(rules[c], rules[i]) then Finding(Unreachable, Error, i, c)
            else Finding(Redundant, Warning, i, c)
  }

  ghost predicate ShadowFinding(rules: seq<Rule>, i: nat, j: nat, f: Finding)
    requires i < j < |rules|
  {
    && OutcomesDiffer(rules[i], rules[j])
    && !RuleCovers(rules[i], rules[j])
    && RulesIntersect(rules[i], rules[j])
    && f == Finding(Shadows, Warning, i, j)
  }

  ghost predicate DenyAgentsFinding(rules: seq<Rule>, i: nat, f: Finding)
    requires i < |rules|
  {
    && rules[i].denyAgents
    && (rules[i].allow ==> rules[i].identities != [] && ANY_LABEL !in rules[i].identities)
    && f == Finding(if rules[i].allow then DenyAgentsIdentityScoped else DenyAgentsNoop, Warning, i, -1)
  }

  ghost predicate LeakFinding(rules: seq<Rule>, f: Finding) {
    || (exists i :: 0 <= i < |rules| && Opens(rules[i]) && f == Finding(GetGranted, Warning, i, -1))
    || (exists i, j :: 0 <= i < |rules| && 0 <= j < |rules| && Bypasses(rules[j], rules[i])
                       && f == Finding(BypassableModes, Error, i, j))
    || ((exists i :: 0 <= i < |rules| && Opens(rules[i])) && f == Finding(AgentAssertableGet, Warning, -1, -1))
  }

  ghost predicate IsFinding(rules: seq<Rule>, f: Finding) {
    || (exists i :: 0 <= i < |rules| && OrderingFinding(rules, i, f))
    || (exists i, j :: 0 <= i < j < |rules| && ShadowFinding(rules, i, j, f))
    || (exists i :: 0 <= i < |rules| && DenyAgentsFinding(rules, i, f))
    || LeakFinding(rules, f)
  }

  ghost predicate IsAnalysis(p: Policy, findings: seq<Finding>) {
    (forall f :: f in findings <==> IsFinding(p.rules, f)) && InOrder(findings)
  }

  // ----- The order of the report -----

  function Stage(k: Kind): nat {
    match k
    case Unreachable => 0
    case Redundant => 0
    case Shadows => 1
    case DenyAgentsNoop => 2
    case DenyAgentsIdentityScoped => 2
    case GetGranted => 3
    case BypassableModes => 4
    case AgentAssertableGet => 5
  }

  predicate Precedes(f: Finding, g: Finding) {
    || Stage(f.kind) < Stage(g.kind)
    || (Stage(f.kind) == Stage(g.kind) && (f.rule < g.rule || (f.rule == g.rule && f.other < g.other)))
  }

  /** By stage, then by rule, then by the other rule, and each finding once. */
  ghost predicate InOrder(findings: seq<Finding>) {
    forall i, j :: 0 <= i < j < |findings| ==> Precedes(findings[i], findings[j])
  }

  ghost predicate AllPrecede(findings: seq<Finding>, g: Finding) { forall f :: f in findings ==> Precedes(f, g) }

  lemma InOrderOneMore(findings: seq<Finding>, g: Finding)
    requires InOrder(findings) && AllPrecede(findings, g)
    ensures InOrder(findings + [g])
    ensures forall h :: Precedes(g, h) ==> AllPrecede(findings + [g], h)
  {
    hide Stage;
    forall i, j | 0 <= i < j < |findings + [g]| ensures Precedes((findings + [g])[i], (findings + [g])[j]) {
      if j == |findings| {
        assert findings[i] in findings;
      }
    }
  }

  lemma InOrderJoined(a: seq<Finding>, b: seq<Finding>)
    requires InOrder(a) && InOrder(b) && forall f, g :: f in a && g in b ==> Precedes(f, g)
    ensures InOrder(a + b)
  {
    hide Precedes;
    forall i, j | 0 <= i < j < |a + b| ensures Precedes((a + b)[i], (a + b)[j]) {
      if i < |a| <= j {
        assert a[i] in a && b[j - |a|] in b;
      }
    }
  }

  /** So a policy has one analysis: which findings there are decides the whole report. */
  lemma {:induction false} AnalysisIsUnique(a: seq<Finding>, b: seq<Finding>)
    requires InOrder(a) && InOrder(b) && forall f :: f in a <==> f in b
    ensures a == b
  {
    hide Stage;
    assert a == [] <==> b == [] by {
      if a != [] {
        assert a[0] in b;
      }
      if b != [] {
        assert b[0] in a;
      }
    }
    if a != [] {
      assert a[0] in b && b[0] in a;
      assert a[0] == b[0];
      forall f ensures f in a[1..] <==> f in b[1..] {
        assert f in a <==> f == a[0] || f in a[1..];
        assert f in b <==> f == b[0] || f in b[1..];
      }
      AnalysisIsUnique(a[1..], b[1..]);
    }
  }

  /** No blocking finding. */
  predicate Ok(findings: seq<Finding>) { forall f :: f in findings ==> f.severity != Error }

  method Analyze(p: Policy) returns (findings: seq<Finding>)
    ensures IsAnalysis(p, findings)
  {
    hide OutcomesDiffer, RuleCovers, RulesIntersect, LeakFinding, Precedes;
    var ordered := OrderFindings(p.rules);
    var shadows := ShadowFindings(p.rules);
    var placed := DenyAgentsFindings(p.rules);
    var leaks := LeakFindings(p);
    StagesInOrder(p.rules, ordered, shadows, placed, leaks);
    findings := ordered + shadows + placed + leaks;
  }

  lemma StagesInOrder(rules: seq<Rule>, ordered: seq<Finding>, shadows: seq<Finding>, placed: seq<Finding>,
                      leaks: seq<Finding>)
    requires InOrder(ordered) && InOrder(shadows) && InOrder(placed) && InOrder(leaks)
    requires forall f :: f in ordered ==> Stage(f.kind) == 0
    requires forall f :: f in shadows ==> Stage(f.kind) == 1
    requires forall f :: f in placed ==> Stage(f.kind) == 2
    requires forall f :: f in leaks ==> Stage(f.kind) >= 3
    ensures InOrder(ordered + shadows + placed + leaks)
  {
    InOrderJoined(ordered, shadows);
    InOrderJoined(ordered + shadows, placed);
    InOrderJoined(ordered + shadows + placed, leaks);
  }

  /** Analyze's first loop: each covered rule, against the first rule that covers it. */
  method OrderFindings(rules: seq<Rule>) returns (findings: seq<Finding>)
    ensures forall f :: f in findings <==> exists k :: 0 <= k < |rules| && OrderingFinding(rules, k, f)
    ensures InOrder(findings) && forall f :: f in findings ==> Stage(f.kind) == 0
  {
    hide OutcomesDiffer, RuleCovers;
    findings := [];
    for i := 0 to |rules|
      invariant forall f :: f in findings <==> exists k :: 0 <= k < i && OrderingFinding(rules, k, f)
      invariant InOrder(findings) && forall f :: f in findings ==> Stage(f.kind) == 0 && f.rule < i
    {
      var c := CoveredBy(rules, i);
      if c >= 0 {
        var f := if !OutcomesDiffer(rules[c], rules[i]) then Finding(Redundant, Warning, i, c)
                 else Finding(Unreachable, Error, i, c);
        InOrderOneMore(findings, f);
        findings := findings + [f];
        assert OrderingFinding(rules, i, f);
      }
    }
  }

  /** Analyze's second pair of loops: intersecting rules whose order decides. */
  method ShadowFindings(rules: seq<Rule>) returns (findings: seq<Finding>)
    ensures forall f :: f in findings <==> exists k, l :: 0 <= k < l < |rules| && ShadowFinding(rules, k, l, f)
    ensures InOrder(findings) && forall f :: f in findings ==> Stage(f.kind) == 1
  {
    hide OutcomesDiffer, RuleCovers, RulesIntersect;
    findings := [];
    for i := 0 to |rules|
      invariant forall f :: f in findings <==>
                  exists k, l :: 0 <= k < i && k < l < |rules| && ShadowFinding(rules, k, l, f)
      invariant InOrder(findings) && forall f :: f in findings ==> Stage(f.kind) == 1 && f.rule < i
    {
      ghost var before := findings;
      for j := i + 1 to |rules|
        invariant forall f :: f in findings <==> f in before || exists l :: i < l < j && ShadowFinding(rules, i, l, f)
        invariant InOrder(findings)
        invariant forall f :: f in findings ==> Stage(f.kind) == 1 && (f.rule < i || (f.rule == i && f.other < j))
      {
        if OutcomesDiffer(rules[i], rules[j]) && !RuleCovers(rules[i], rules[j]) && RulesIntersect(rules[i], rules[j]) {
          InOrderOneMore(findings, Finding(Shadows, Warning, i, j));
          findings := findings + [Finding(Shadows, Warning, i, j)];
          assert ShadowFinding(rules, i, j, Finding(Shadows, Warning, i, j));
        }
      }
    }
  }

  /** Analyze's third loop: deny_agents that does nothing, or less than it may seem to. */
  method DenyAgentsFindings(rules: seq<Rule>) returns (findings: seq<Finding>)
    ensures forall f :: f in findings <==> exists k :: 0 <= k < |rules| && DenyAgentsFinding(rules, k, f)
    ensures InOrder(findings) && forall f :: f in findings ==> Stage(f.kind) == 2
  {
    findings := [];
    for i := 0 to |rules|
      invariant forall f :: f in findings <==> exists k :: 0 <= k < i && DenyAgentsFinding(rules, k, f)
      invariant InOrder(findings) && forall f :: f in findings ==> Stage(f.kind) == 2 && f.rule < i
    {
      if rules[i].denyAgents {
        if !rules[i].allow {
          InOrderOneMore(findings, Finding(DenyAgentsNoop, Warning, i, -1));
          findings := findings + [Finding(DenyAgentsNoop, Warning, i, -1)];
          assert DenyAgentsFinding(rules, i, Finding(DenyAgentsNoop, Warning, i, -1));
        } else if rules[i].identities != [] && ANY_LABEL !in rules[i].identities {
          InOrderOneMore(findings, Finding(DenyAgentsIdentityScoped, Warning, i, -1));
          findings := findings + [Finding(DenyAgentsIdentityScoped, Warning, i, -1)];
          assert DenyAgentsFinding(rules, i, Finding(DenyAgentsIdentityScoped, Warning, i, -1));
        }
      }
    }
  }

  /** The last third of Analyze: Check's findings in one report. */
  method LeakFindings(p: Policy) returns (findings: seq<Finding>)
    ensures forall f :: f in findings <==> LeakFinding(p.rules, f)
    ensures InOrder(findings) && forall f :: f in findings ==> Stage(f.kind) >= 3
  {
    var rep := Check(p);
    findings := ReportFindings(p, rep);
    hide LeakFinding, IsReport, GrantedAmong, WeakenedAmong;
    var labels := AgentAssertableGetLabels(rep);
    if |labels| > 0 {
      InOrderOneMore(findings, Finding(AgentAssertableGet, Warning, -1, -1));
      findings := findings + [Finding(AgentAssertableGet, Warning, -1, -1)];
    }
    LeakFindingsAre(p, rep, labels);
  }

  method ReportFindings(p: Policy, rep: Report) returns (findings: seq<Finding>)
    requires IsReport(p, rep)
    ensures forall f :: f in findings <==> GrantedAmong(rep, |rep.getOpen|, f) || WeakenedAmong(rep, |rep.weakened|, f)
    ensures InOrder(findings) && forall f :: f in findings ==> 3 <= Stage(f.kind) <= 4
  {
    hide Opens, Bypasses;
    findings := [];
    for k := 0 to |rep.getOpen|
      invariant forall f :: f in findings <==> GrantedAmong(rep, k, f)
      invariant InOrder(findings)
    {
      var f := Finding(GetGranted, Warning, rep.getOpen[k].rule, -1);
      InOrderOneMore(findings, f);
      findings := findings + [f];
    }
    ghost var granted := findings;
    for k := 0 to |rep.weakened|
      invariant forall f :: f in findings <==> f in granted || WeakenedAmong(rep, k, f)
      invariant InOrder(findings)
    {
      var f := Finding(BypassableModes, Error, rep.weakened[k].restrictedRule, rep.weakened[k].openRule);
      InOrderOneMore(findings, f);
      findings := findings + [f];
    }
  }

  lemma LeakFindingsAre(p: Policy, rep: Report, labels: seq<Text>)
    requires IsReport(p, rep) && forall l: Text :: l in labels <==> ReachesGet(rep, l)
    ensures forall f :: LeakFinding(p.rules, f) <==>
              || GrantedAmong(rep, |rep.getOpen|, f)
              || WeakenedAmong(rep, |rep.weakened|, f)
              || (|labels| > 0 && f == Finding(AgentAssertableGet, Warning, -1, -1))
  {
    hide GrantedAmong, WeakenedAmong, IsReport, ReachesGet, Opens, Bypasses;
    SomeLabelReachesGet(p, rep, labels);
    forall f ensures LeakFinding(p.rules, f) <==>
        || GrantedAmong(rep, |rep.getOpen|, f)
        || WeakenedAmong(rep, |rep.weakened|, f)
        || (|labels| > 0 && f == Finding(AgentAssertableGet, Warning, -1, -1))
    {
      OpenEntriesAreOpenRules(p, rep, f);
      WeakenedEntriesAreBypasses(p, rep, f);
    }
  }

  ghost predicate GrantedAmong(rep: Report, n: nat, f: Finding)
    requires n <= |rep.getOpen|
  {
    exists k :: 0 <= k < n && f == Finding(GetGranted, Warning, rep.getOpen[k].rule, -1)
  }

  ghost predicate WeakenedAmong(rep: Report, n: nat, f: Finding)
    requires n <= |rep.weakened|
  {
    exists k :: 0 <= k < n &&
      f == Finding(BypassableModes, Error, rep.weakened[k].restrictedRule, rep.weakened[k].openRule)
  }

  lemma OpenEntriesAreOpenRules(p: Policy, rep: Report, f: Finding)
    requires IsReport(p, rep)
    ensures GrantedAmong(rep, |rep.getOpen|, f) <==>
            exists i :: 0 <= i < |p.rules| && Opens(p.rules[i]) && f == Finding(GetGranted, Warning, i, -1)
  {
  }

  lemma WeakenedEntriesAreBypasses(p: Policy, rep: Report, f: Finding)
    requires IsReport(p, rep)
    ensures WeakenedAmong(rep, |rep.weakened|, f) <==>
            exists i, j :: 0 <= i < |p.rules| && 0 <= j < |p.rules| && Bypasses(p.rules[j], p.rules[i])
                           && f == Finding(BypassableModes, Error, i, j)
  {
  }

  lemma SomeLabelReachesGet(p: Policy, rep: Report, labels: seq<Text>)
    requires IsReport(p, rep) && forall l: Text :: l in labels <==> ReachesGet(rep, l)
    ensures |labels| > 0 <==> exists i :: 0 <= i < |p.rules| && Opens(p.rules[i])
  {
    if i :| 0 <= i < |p.rules| && Opens(p.rules[i]) {
      var k :| 0 <= k < |rep.getOpen| && rep.getOpen[k] == OpenEntry(p.rules, i);
      var l := if p.rules[i].identities == [] then ANY_LABEL else p.rules[i].identities[0];
      assert ReachesGet(rep, l);
    }
    if |labels| > 0 {
      var l := labels[0];
      assert l in labels;
    }
  }

  // ----- What a finding, or its absence, means -----

  /** No outer pattern with a `?` faces an inner pattern with a `*` anywhere in the policy. */
  predicate PolicyUnmixed(p: Policy) {
    forall i, j :: 0 <= i < |p.rules| && 0 <= j < |p.rules| && i != j ==> RulesUnmixed(p.rules[i], p.rules[j])
  }

  /** A rule reported redundant or unreachable decides no plain request, and can be
      deleted without changing one; unreachable also means that in some context the rule
      that covers it decides the other way. */
  lemma ReportedRuleIsDead(p: Policy, findings: seq<Finding>, f: Finding, r: Request)
    requires IsAnalysis(p, findings) && PolicyUnmixed(p) && Plain(r)
    requires f in findings && (f.kind == Unreachable || f.kind == Redundant)
    ensures 0 <= f.other < f.rule < |p.rules|
    ensures Evaluate(p, r).rule != f.rule
    ensures Evaluate(Without(p, f.rule), r).allow == Evaluate(p, r).allow
    ensures f.kind == Unreachable <==> OutcomesDiffer(p.rules[f.other], p.rules[f.rule])
  {
    hide Evaluate, Plain, RuleCovers, OutcomesDiffer, RulesUnmixed;
    var i :| 0 <= i < |p.rules| && OrderingFinding(p.rules, i, f);
    CoveredRuleIsDead(p, i, r);
  }

  /** Neighbours about which no ordering finding is reported may change places: on
      decidable patterns the report misses no order that matters. */
  lemma UnreportedNeighboursCommute(p: Policy, findings: seq<Finding>, i: nat, r: Request)
    requires IsAnalysis(p, findings) && Plain(r)
    requires i + 1 < |p.rules| && RulesDecidable(p.rules[i], p.rules[i + 1])
    requires forall f :: f in findings ==>
               !(f.kind == Shadows && f.rule == i && f.other == i + 1)
               && !((f.kind == Unreachable || f.kind == Redundant) && f.rule == i + 1)
    ensures Evaluate(Swapped(p, i), r).allow == Evaluate(p, r).allow
  {
    var rules := p.rules;
    var c := CoveredBy(rules, i + 1);
    if c >= 0 {
      var f := if OutcomesDiffer(rules[c], rules[i + 1]) then Finding(Unreachable, Error, i + 1, c)
               else Finding(Redundant, Warning, i + 1, c);
      assert OrderingFinding(rules, i + 1, f);
      assert IsFinding(rules, f);
    } else if !OutcomesDiffer(rules[i], rules[i + 1]) {
      SameOutcomesCommute(p, i, r);
    } else {
      var f := Finding(Shadows, Warning, i, i + 1);
      assert f !in findings;
      assert !ShadowFinding(rules, i, i + 1, f);
      DisjointRulesCommute(p, i, r);
    }
  }

  /** A reported shadow is real at every instant in both schedules: some plain request at
      that instant matches both rules, and of the two alone the one listed first decides it. */
  lemma ShadowIsReal(p: Policy, findings: seq<Finding>, f: Finding, t: Instant) returns (r: Request)
    requires IsAnalysis(p, findings) && f in findings && f.kind == Shadows
    requires 0 <= f.rule < |p.rules| && 0 <= f.other < |p.rules|
    requires p.rules[f.rule].MatchesTime(t) && p.rules[f.other].MatchesTime(t)
    ensures Meets(p.rules[f.rule], p.rules[f.other], r) && r.time == t
    ensures ValidPolicy(p) ==> KnownMode(r.mode)
    ensures OrderDecides(p.rules[f.rule], p.rules[f.other], r)
  {
    hide ValidRule, Meets, OrderDecides, KnownMode, Rule.MatchesTime;
    var i, j :| 0 <= i < j < |p.rules| && ShadowFinding(p.rules, i, j, f);
    r := IntersectionIsReal(p.rules[i], p.rules[j], t);
  }

  /** In a valid policy a reported shadow is real exactly when the rules' hours meet. */
  lemma ShadowExactness(p: Policy, findings: seq<Finding>, f: Finding)
    requires ValidPolicy(p) && IsAnalysis(p, findings) && f in findings && f.kind == Shadows
    ensures 0 <= f.rule < f.other < |p.rules|
    ensures HoursMeet(p.rules[f.rule].hours, p.rules[f.other].hours) <==>
              exists r: Request ::
                Meets(p.rules[f.rule], p.rules[f.other], r) && OrderDecides(p.rules[f.rule], p.rules[f.other], r)
    ensures HoursMeet(p.rules[f.rule].hours, p.rules[f.other].hours) ==>
              exists r: Request ::
                && Meets(p.rules[f.rule], p.rules[f.other], r) && KnownMode(r.mode)
                && OrderDecides(p.rules[f.rule], p.rules[f.other], r)
  {
    hide HoursMeet, ValidRule, Meets, OrderDecides, KnownMode;
    var i, j :| 0 <= i < j < |p.rules| && ShadowFinding(p.rules, i, j, f);
    IntersectionExactness(p.rules[i], p.rules[j]);
  }

  /** A deny_agents reported as without effect can be cleared: no request, agent or not,
      is decided otherwise or by another rule. */
  lemma ReportedFlagIsIdle(p: Policy, findings: seq<Finding>, f: Finding, r: Request)
    requires IsAnalysis(p, findings) && f in findings && f.kind == DenyAgentsNoop
    ensures 0 <= f.rule < |p.rules| && p.rules[f.rule].denyAgents
    ensures Evaluate(p.(rules := p.rules[f.rule := p.rules[f.rule].(denyAgents := false)]), r) == Evaluate(p, r)
  {
    var i :| 0 <= i < |p.rules| && DenyAgentsFinding(p.rules, i, f);
    var q := p.(rules := p.rules[i := p.rules[i].(denyAgents := false)]);
    assert forall k :: 0 <= k < |p.rules| ==> q.rules[k].Matches(r) == p.rules[k].Matches(r);
    hide Rule.Matches, Evaluate;
    EvaluateIsFirstMatch(p, r);
    EvaluateIsFirstMatch(q, r);
    FirstMatchDecides(q, r, Evaluate(p, r).rule);
  }

  /** Two kinds of finding block: a rule whose effect is lost, and a restriction bypassed. */
  lemma BlockingKinds(p: Policy, findings: seq<Finding>, f: Finding)
    requires IsAnalysis(p, findings) && f in findings
    ensures f.severity == Error <==> f.kind == Unreachable || f.kind == BypassableModes
  {
    hide OutcomesDiffer, RuleCovers, RulesIntersect, Opens, Bypasses;
  }

  /** What the transaction relies on when it goes ahead: with no blocking finding every
      covered rule only repeats the rule that covers it, and every mode restriction
      holds whatever label a caller asserts. */
  lemma NoBlockingFinding(p: Policy, findings: seq<Finding>, r: Request)
    requires IsAnalysis(p, findings) && Ok(findings)
    requires PolicyUnmixed(p) && Plain(r)
    ensures forall i :: 0 <= i < |p.rules| && CoveredBy(p.rules, i) >= 0 ==>
              !OutcomesDiffer(p.rules[CoveredBy(p.rules, i)], p.rules[i])
    ensures forall i :: 0 <= i < |p.rules| && Restricts(p.rules[i]) && SecretsDecidable(p, i)
              && r.mode == GET && Admits(p.rules[i].secrets, r.ref) && Evaluate(p, r).allow
              ==> Admits(p.rules[i].identities, r.identity)
  {
    var rules := p.rules;
    forall i | 0 <= i < |rules| && CoveredBy(rules, i) >= 0
      ensures !OutcomesDiffer(rules[CoveredBy(rules, i)], rules[i])
    {
      var f := Finding(Unreachable, Error, i, CoveredBy(rules, i));
      assert OrderingFinding(rules, i, f) ==> f in findings;
    }
    forall i | 0 <= i < |rules| && Restricts(rules[i]) && SecretsDecidable(p, i)
               && r.mode == GET && Admits(rules[i].secrets, r.ref) && Evaluate(p, r).allow
      ensures Admits(rules[i].identities, r.identity)
    {
      forall j | 0 <= j < |rules| ensures !Bypasses(rules[j], rules[i]) {
        var f := Finding(BypassableModes, Error, i, j);
        assert Bypasses(rules[j], rules[i]) ==> f in findings;
      }
      EvaluateIsFirstMatch(p, r);
      var j := Evaluate(p, r).rule;
      SecretsOverlapIsExact(rules[i].secrets, rules[j].secrets);
      PatternsCoverIsInclusion(rules[i].identities, rules[j].identities, r.identity);
    }
  }

  predicate SecretsDecidable(p: Policy, i: nat)
    requires i < |p.rules|
  {
    forall j :: 0 <= j < |p.rules| ==> Decidable(p.rules[i].secrets, p.rules[j].secrets)
  }
}
