/**
 Leak containment: which rules hand out raw values, and which mode restrictions a
 self-asserted label can bypass (internal/policy/check.go, and
 agentAssertableGetLabels in internal/policy/analyze.go).
 */
module Leak {
  import opened Bytes
  import opened Glob
  import opened GlobLaws
  import opened Policy
  import opened Coverage

  datatype GetOpen = GetOpen(rule: nat, secrets: seq<Text>, identities: seq<Text>, conditional: bool)

  datatype Weakened = Weakened(
    restrictedRule: nat, restrictedIDs: seq<Text>, secrets: seq<Text>, openRule: nat, openIDs: seq<Text>)

  datatype Report = Report(getOpen: seq<GetOpen>, weakened: seq<Weakened>)

  predicate PermitsGet(r: Rule) { r.modes == [] || AnyAccepts(r.modes, GET) }

  predicate IdentitiesSubsumed(open: seq<Text>, restricted: seq<Text>) {
    open != [] && restricted != [] && forall i :: 0 <= i < |open| ==> AnyAccepts(restricted, open[i])
  }

  // ----- What the report holds -----

  predicate Opens(r: Rule) { r.allow && PermitsGet(r) }

  /** An allow-rule that deliberately leaves get out. */
  predicate Restricts(r: Rule) { r.allow && r.modes != [] && !PermitsGet(r) }

  predicate Bypasses(open: Rule, restricted: Rule) {
    && Opens(open)
    && Restricts(restricted)
    && SecretsOverlap(restricted.secrets, open.secrets)
    && !IdentitiesSubsumed(open.identities, restricted.identities)
  }

  function OpenEntry(rules: seq<Rule>, i: nat): GetOpen
    requires i < |rules|
  {
    GetOpen(i, rules[i].secrets, rules[i].identities, Scheduled(rules[i]))
  }

  function WeakenedEntry(rules: seq<Rule>, i: nat, j: nat): Weakened
    requires i < |rules| && j < |rules|
  {
    Weakened(i, rules[i].identities, rules[i].secrets, j, rules[j].identities)
  }

  ghost predicate ListsOpen(rules: seq<Rule>, getOpen: seq<GetOpen>, n: nat)
    requires n <= |rules|
  {
    && (forall k :: 0 <= k < |getOpen| ==> getOpen[k].rule < n && Opens(rules[getOpen[k].rule])
                                           && getOpen[k] == OpenEntry(rules, getOpen[k].rule))
    && (forall k, l :: 0 <= k < l < |getOpen| ==> getOpen[k].rule < getOpen[l].rule)
    && (forall i :: 0 <= i < n && Opens(rules[i]) ==> OpenEntry(rules, i) in getOpen)
  }

  /** The entries for restricted rules before n, and for rule n against the first m open ones. */
  ghost predicate ListsWeakened(rules: seq<Rule>, getOpen: seq<GetOpen>, weakened: seq<Weakened>, n: nat, m: nat)
    requires n <= |rules| && m <= |getOpen| && (n == |rules| ==> m == 0)
    requires ListsOpen(rules, getOpen, |rules|)
  {
    && (forall w :: w in weakened ==>
          && w.restrictedRule < |rules| && w.openRule < |rules|
          && w == WeakenedEntry(rules, w.restrictedRule, w.openRule)
          && Bypasses(rules[w.openRule], rules[w.restrictedRule]))
    && (forall i, j :: 0 <= i < n && 0 <= j < |rules| && Bypasses(rules[j], rules[i]) ==>
          WeakenedEntry(rules, i, j) in weakened)
    && (forall k :: 0 <= k < m && Bypasses(rules[getOpen[k].rule], rules[n]) ==>
          WeakenedEntry(rules, n, getOpen[k].rule) in weakened)
  }

  /** By restricted rule, then by open rule, and each pair once. */
  ghost predicate WeakenedAscend(weakened: seq<Weakened>) {
    forall k, l :: 0 <= k < l < |weakened| ==>
      || weakened[k].restrictedRule < weakened[l].restrictedRule
      || (weakened[k].restrictedRule == weakened[l].restrictedRule && weakened[k].openRule < weakened[l].openRule)
  }

  /** Every entry so far comes before one for rule n and the m-th open rule or a later one. */
  ghost predicate WeakenedBefore(getOpen: seq<GetOpen>, weakened: seq<Weakened>, n: nat, m: nat) {
    && WeakenedAscend(weakened)
    && forall w :: w in weakened ==>
         || w.restrictedRule < n
         || (w.restrictedRule == n && forall l :: m <= l < |getOpen| ==> w.openRule < getOpen[l].rule)
  }

  lemma WeakenedBeforeNext(rules: seq<Rule>, getOpen: seq<GetOpen>, weakened: seq<Weakened>, i: nat, k: nat,
                           listed: bool)
    requires i < |rules| && k < |getOpen| && ListsOpen(rules, getOpen, |rules|)
    requires WeakenedBefore(getOpen, weakened, i, k)
    ensures var now := weakened + if listed then [WeakenedEntry(rules, i, getOpen[k].rule)] else [];
            WeakenedBefore(getOpen, now, i, k + 1)
  {
    hide Opens;
    var w := WeakenedEntry(rules, i, getOpen[k].rule);
    var now := weakened + if listed then [w] else [];
    assert forall x :: x in now ==> x in weakened || x == w;
  }

  /** The open rules are listed once each in order, and an entry is weakened exactly when
      an open rule bypasses a restricted one; those entries are in order too. */
  ghost predicate IsReport(p: Policy, rep: Report) {
    && WeakenedAscend(rep.weakened)
    && ListsOpen(p.rules, rep.getOpen, |p.rules|)
    && ListsWeakened(p.rules, rep.getOpen, rep.weakened, |p.rules|, 0)
  }

  method Check(p: Policy) returns (rep: Report)
    ensures IsReport(p, rep)
  {
    hide SecretsOverlap, IdentitiesSubsumed, PermitsGet, ListsOpen, ListsWeakened, WeakenedBefore, WeakenedAscend;
    var getOpen: seq<GetOpen>, weakened: seq<Weakened> := [], [];
    NothingListed(p.rules);
    for i := 0 to |p.rules|
      invariant ListsOpen(p.rules, getOpen, i)
    {
      if p.rules[i].allow && PermitsGet(p.rules[i]) {
        OpenListed(p.rules, getOpen, i);
        getOpen := getOpen + [OpenEntry(p.rules, i)];
      } else {
        ClosedPassed(p.rules, getOpen, i);
      }
    }
    NothingWeakened(p.rules, getOpen);
    for i := 0 to |p.rules|
      invariant ListsWeakened(p.rules, getOpen, weakened, i, 0) && WeakenedBefore(getOpen, weakened, i, 0)
    {
      var restricted := p.rules[i];
      if !(!restricted.allow || restricted.modes == [] || PermitsGet(restricted)) {
        for k := 0 to |getOpen|
          invariant ListsWeakened(p.rules, getOpen, weakened, i, k) && WeakenedBefore(getOpen, weakened, i, k)
        {
          var open := getOpen[k];
          OpenEntryAt(p.rules, getOpen, k);
          assert weakened + [] == weakened;
          WeakenedBeforeNext(p.rules, getOpen, weakened, i, k, Bypasses(p.rules[open.rule], restricted));
          if open.rule == i || !SecretsOverlap(restricted.secrets, open.secrets) {
            OpenPassed(p.rules, getOpen, weakened, i, k);
          } else if IdentitiesSubsumed(open.identities, restricted.identities) {
            OpenPassed(p.rules, getOpen, weakened, i, k);
          } else {
            BypassListed(p.rules, getOpen, weakened, i, k);
            weakened := weakened + [WeakenedEntry(p.rules, i, open.rule)];
          }
        }
        OpenRulesScanned(p.rules, getOpen, weakened, i);
      } else {
        UnrestrictedPassed(p.rules, getOpen, weakened, i);
      }
    }
    BeforeMeansAscend(getOpen, weakened, |p.rules|, 0);
    rep := Report(getOpen, weakened);
  }

  lemma OpenListed(rules: seq<Rule>, getOpen: seq<GetOpen>, i: nat)
    requires i < |rules| && ListsOpen(rules, getOpen, i) && Opens(rules[i])
    ensures ListsOpen(rules, getOpen + [OpenEntry(rules, i)], i + 1)
  {
  }

  lemma OpenPassed(rules: seq<Rule>, getOpen: seq<GetOpen>, weakened: seq<Weakened>, i: nat, k: nat)
    requires i < |rules| && k < |getOpen| && ListsOpen(rules, getOpen, |rules|)
    requires ListsWeakened(rules, getOpen, weakened, i, k)
    requires !Bypasses(rules[getOpen[k].rule], rules[i])
    ensures ListsWeakened(rules, getOpen, weakened, i, k + 1)
  {
  }

  lemma BypassListed(rules: seq<Rule>, getOpen: seq<GetOpen>, weakened: seq<Weakened>, i: nat, k: nat)
    requires i < |rules| && k < |getOpen| && ListsOpen(rules, getOpen, |rules|)
    requires ListsWeakened(rules, getOpen, weakened, i, k)
    requires Bypasses(rules[getOpen[k].rule], rules[i])
    ensures ListsWeakened(rules, getOpen, weakened + [WeakenedEntry(rules, i, getOpen[k].rule)], i, k + 1)
  {
  }

  lemma OpenRulesScanned(rules: seq<Rule>, getOpen: seq<GetOpen>, weakened: seq<Weakened>, i: nat)
    requires i < |rules| && ListsOpen(rules, getOpen, |rules|)
    requires ListsWeakened(rules, getOpen, weakened, i, |getOpen|)
    requires WeakenedBefore(getOpen, weakened, i, |getOpen|)
    ensures ListsWeakened(rules, getOpen, weakened, i + 1, 0) && WeakenedBefore(getOpen, weakened, i + 1, 0)
  {
    hide Opens, Restricts;
  }

  lemma NothingListed(rules: seq<Rule>)
    ensures ListsOpen(rules, [], 0)
  {
  }

  lemma NothingWeakened(rules: seq<Rule>, getOpen: seq<GetOpen>)
    requires ListsOpen(rules, getOpen, |rules|)
    ensures ListsWeakened(rules, getOpen, [], 0, 0) && WeakenedBefore(getOpen, [], 0, 0)
  {
  }

  lemma ClosedPassed(rules: seq<Rule>, getOpen: seq<GetOpen>, i: nat)
    requires i < |rules| && ListsOpen(rules, getOpen, i) && !Opens(rules[i])
    ensures ListsOpen(rules, getOpen, i + 1)
  {
    hide Opens;
  }

  lemma OpenEntryAt(rules: seq<Rule>, getOpen: seq<GetOpen>, k: nat)
    requires ListsOpen(rules, getOpen, |rules|) && k < |getOpen|
    ensures getOpen[k].rule < |rules| && Opens(rules[getOpen[k].rule])
    ensures getOpen[k] == OpenEntry(rules, getOpen[k].rule)
  {
    hide Opens;
  }

  lemma UnrestrictedPassed(rules: seq<Rule>, getOpen: seq<GetOpen>, weakened: seq<Weakened>, i: nat)
    requires i < |rules| && ListsOpen(rules, getOpen, |rules|) && !Restricts(rules[i])
    requires ListsWeakened(rules, getOpen, weakened, i, 0) && WeakenedBefore(getOpen, weakened, i, 0)
    ensures ListsWeakened(rules, getOpen, weakened, i + 1, 0) && WeakenedBefore(getOpen, weakened, i + 1, 0)
  {
    hide Opens, Restricts;
  }

  lemma BeforeMeansAscend(getOpen: seq<GetOpen>, weakened: seq<Weakened>, n: nat, m: nat)
    requires WeakenedBefore(getOpen, weakened, n, m)
    ensures WeakenedAscend(weakened)
  {
  }

  // ----- What the report means -----

  /** An open entry shows its rule's own refs and labels, and whether it is limited in time. */
  lemma OpenEntryShows(p: Policy, rep: Report, g: GetOpen)
    requires IsReport(p, rep) && g in rep.getOpen
    ensures g.rule < |p.rules|
    ensures g.secrets == p.rules[g.rule].secrets && g.identities == p.rules[g.rule].identities
    ensures g.conditional <==>
              p.rules[g.rule].weekdays != [] || p.rules[g.rule].monthdays != [] || p.rules[g.rule].hours != []
  {
    hide Opens, ListsWeakened, WeakenedAscend;
  }

  /** A weakened entry shows the refs and labels of the restricted rule, and the labels of
      the open rule that reaches them. */
  lemma WeakenedEntryShows(p: Policy, rep: Report, w: Weakened)
    requires IsReport(p, rep) && w in rep.weakened
    ensures w.restrictedRule < |p.rules| && w.openRule < |p.rules|
    ensures Restricts(p.rules[w.restrictedRule]) && Opens(p.rules[w.openRule])
    ensures w.secrets == p.rules[w.restrictedRule].secrets && w.restrictedIDs == p.rules[w.restrictedRule].identities
    ensures w.openIDs == p.rules[w.openRule].identities
  {
    hide Opens, Restricts, WeakenedAscend;
  }

  /** Every get that is allowed is decided by a listed rule: with no rule listed, no get
      is ever allowed. */
  lemma AllowedGetIsListed(p: Policy, rep: Report, r: Request)
    requires IsReport(p, rep) && r.mode == GET && Evaluate(p, r).allow
    ensures var i := Evaluate(p, r).rule; i >= 0 && OpenEntry(p.rules, i) in rep.getOpen
  {
    EvaluateIsFirstMatch(p, r);
  }

  /** A mode restriction on a ref: with a clean report, whoever gets the raw value of a
      restricted ref carries a label the restriction already covers. */
  lemma CleanReportContains(p: Policy, rep: Report, i: nat, r: Request)
    requires IsReport(p, rep) && rep.weakened == []
    requires i < |p.rules| && Restricts(p.rules[i])
    requires forall j :: 0 <= j < |p.rules| && Opens(p.rules[j]) ==>
               && Decidable(p.rules[i].secrets, p.rules[j].secrets)
               && Unmixed(p.rules[i].identities, p.rules[j].identities)
    requires Plain(r) && r.mode == GET && Admits(p.rules[i].secrets, r.ref)
    requires Evaluate(p, r).allow
    ensures Admits(p.rules[i].identities, r.identity)
  {
    EvaluateIsFirstMatch(p, r);
    hide Evaluate, SecretsOverlap, ListsOpen;
    var j := Evaluate(p, r).rule;
    SecretsOverlapIsExact(p.rules[i].secrets, p.rules[j].secrets);
    assert !Bypasses(p.rules[j], p.rules[i]);
    PatternsCoverIsInclusion(p.rules[i].identities, p.rules[j].identities, r.identity);
  }

  /** The restricted rule's promise against one other rule: if no bypass is reported, a
      raw value of a restricted ref only ever goes to a restricted label. */
  ghost predicate Contains(restricted: Rule, other: Rule) {
    || Bypasses(other, restricted)
    || forall r: Request :: ReachesRaw(restricted, other, r) ==> Admits(restricted.identities, r.identity)
  }

  /** A get of a restricted ref that the two rules together allow. */
  ghost predicate ReachesRaw(restricted: Rule, other: Rule, r: Request) {
    && Plain(r)
    && r.mode == GET
    && Admits(restricted.secrets, r.ref)
    && Evaluate(Policy(1, [restricted, other]), r).allow
  }

  lemma ContainedByLiterals(restricted: Rule, other: Rule)
    requires Restricts(restricted)
    requires Decidable(restricted.secrets, other.secrets) && Unmixed(restricted.identities, other.identities)
    ensures Contains(restricted, other)
  {
    if !Bypasses(other, restricted) {
      forall r: Request | ReachesRaw(restricted, other, r) ensures Admits(restricted.identities, r.identity) {
        OtherDecidesGet(restricted, other, r);
        SecretsOverlapIsExact(restricted.secrets, other.secrets);
        PatternsCoverIsInclusion(restricted.identities, other.identities, r.identity);
      }
    }
  }

  lemma OtherDecidesGet(restricted: Rule, other: Rule, r: Request)
    requires Restricts(restricted) && r.mode == GET
    ensures Evaluate(Policy(1, [restricted, other]), r).allow == (other.Matches(r) && other.Outcome(r.agent != []))
  {
    FirstMatchDecides(Policy(1, [restricted, other]), r, if other.Matches(r) then 1 else -1);
  }

  function OpenRule(secret: Text, identity: Text): (r: Rule)
    ensures Opens(r)
  {
    Rule(true, [], [secret], [identity], [], [], [], [], false)
  }

  lemma NotContained(restricted: Rule, secret: Text, identity: Text, ref: Text, tag: Text)
    requires Restricts(restricted) && !Bypasses(OpenRule(secret, identity), restricted)
    requires StarFree(ref) && StarFree(tag)
    requires Admits(restricted.secrets, ref) && Accepts(secret, ref)
    requires Accepts(identity, tag) && !Admits(restricted.identities, tag)
    ensures !Contains(restricted, OpenRule(secret, identity))
  {
    var other := OpenRule(secret, identity);
    var r := Request(ref, tag, GET, Instant(0, 1, 0), []);
    SingleOverlap(secret, ref);
    SingleOverlap(identity, tag);
    OtherDecidesGet(restricted, other, r);
    assert StarFree(GET);
    assert ReachesRaw(restricted, other, r);
  }

  lemma SingleOverlap(x: Text, y: Text)
    ensures SecretsOverlap([x], [y]) == TextsOverlap(x, y)
    ensures AnyAccepts([x], y) == Accepts(x, y)
    ensures IdentitiesSubsumed([x], [y]) == Accepts(y, x)
  {
    assert TextsOverlap([x][0], [y][0]) == TextsOverlap(x, y);
    assert Accepts([x][0], y) == Accepts(x, y);
    assert Accepts([y][0], x) == Accepts(y, x);
  }

  /** A rule that restricts one secret pattern for one label pattern is contained, against
      every other rule, exactly when its label pattern is only stars, or its secret is a
      literal and its label pattern has no question mark. */
  lemma ContainmentExactness(restricted: Rule, secret: Text, tag: Text)
    requires Restricts(restricted) && restricted.secrets == [secret] && restricted.identities == [tag]
    ensures (forall other: Rule :: Contains(restricted, other))
            <==> (tag != [] && AllStars(tag)) || (Literal(secret) && QUESTION !in tag)
  {
    if tag != [] && AllStars(tag) {
      forall other: Rule ensures Contains(restricted, other) {
        forall r: Request | ReachesRaw(restricted, other, r) ensures Admits(restricted.identities, r.identity) {
          AllStarsAcceptAll(tag, r.identity);
          SingleOverlap(tag, r.identity);
        }
      }
    } else if Literal(secret) && QUESTION !in tag {
      forall other: Rule ensures Contains(restricted, other) {
        ContainedByLiterals(restricted, other);
      }
    } else if !Literal(secret) {
      OverlapExactness(secret);
      var y: Text :| TextsOverlap(secret, y) != HaveCommonText(secret, y);
      if TextsOverlap(secret, y) {
        TextOverlapIsReal(secret, y);
      }
      var ref: Text :| StarFree(ref) && Accepts(secret, ref) && Accepts(y, ref);
      SingleOverlap(secret, y);
      SingleOverlap(secret, ref);
      var outsider: Text := if tag == [] then "a" else [];
      SingleOverlap(tag, outsider);
      AcceptsItself(outsider);
      NotContained(restricted, y, outsider, ref, outsider);
    } else {
      OuterCoverageExactness(tag);
      var wide: Text :| Accepts(tag, wide) && !Includes(tag, wide);
      var name: Text :| StarFree(name) && Accepts(wide, name) && !Accepts(tag, name);
      AcceptsItself(secret);
      SingleOverlap(wide, tag);
      SingleOverlap(tag, name);
      SingleOverlap(secret, secret);
      NotContained(restricted, secret, wide, secret, name);
    }
  }

  lemma AllStarsAcceptAll(p: Text, s: Text)
    requires AllStars(p) && StarFree(s) && p != []
    ensures Accepts(p, s)
  {
    AllStarsMatchEmpty(p[1..]);
    assert s[|s|..] == [];
    MatchesSkipsRun(p, s, |s|);
    AcceptsIsExact(p, s);
  }

  // ----- Labels that reach get -----

  const ANY_LABEL: Text := "*"

  ghost predicate ReachesGet(rep: Report, tag: Text) {
    exists k :: 0 <= k < |rep.getOpen| &&
      (tag in rep.getOpen[k].identities || (rep.getOpen[k].identities == [] && tag == ANY_LABEL))
  }

  method AgentAssertableGetLabels(rep: Report) returns (labels: seq<Text>)
    ensures forall l: Text :: l in labels <==> ReachesGet(rep, l)
    ensures Ascending(labels)
  {
    var seen: set<Text> := {};
    for k := 0 to |rep.getOpen|
      invariant forall l: Text :: l in seen <==> ReachesGet(Report(rep.getOpen[..k], rep.weakened), l)
    {
      var g := rep.getOpen[k];
      var listed := if g.identities == [] then {ANY_LABEL} else set l | l in g.identities;
      LabelsOfPrefix(rep, k);
      seen := seen + listed;
    }
    assert rep.getOpen[..|rep.getOpen|] == rep.getOpen;
    labels := SortedKeys(seen);
    SortedKeysAscend(seen);
  }

  lemma LabelsOfPrefix(rep: Report, k: nat)
    requires k < |rep.getOpen|
    ensures var g := rep.getOpen[k];
            forall l: Text :: ReachesGet(Report(rep.getOpen[..k + 1], rep.weakened), l) <==>
              || ReachesGet(Report(rep.getOpen[..k], rep.weakened), l)
              || l in (if g.identities == [] then {ANY_LABEL} else set m | m in g.identities)
  {
    var before, now := Report(rep.getOpen[..k], rep.weakened), Report(rep.getOpen[..k + 1], rep.weakened);
    assert now.getOpen == before.getOpen + [rep.getOpen[k]];
    assert now.getOpen[k] == rep.getOpen[k];
    forall l: Text | ReachesGet(before, l) ensures ReachesGet(now, l) {
      var j :| 0 <= j < |before.getOpen| &&
        (l in before.getOpen[j].identities || (before.getOpen[j].identities == [] && l == ANY_LABEL));
      assert now.getOpen[j] == before.getOpen[j];
    }
  }

  /** Whoever is allowed a get under a star-free label asserted a label the list names. */
  lemma AllowedGetMatchesLabel(p: Policy, rep: Report, r: Request) returns (tag: Text)
    requires IsReport(p, rep) && r.mode == GET && StarFree(r.identity) && Evaluate(p, r).allow
    ensures ReachesGet(rep, tag) && Accepts(tag, r.identity)
  {
    AllowedGetIsListed(p, rep, r);
    EvaluateIsFirstMatch(p, r);
    var rule := p.rules[Evaluate(p, r).rule];
    var k :| 0 <= k < |rep.getOpen| && rep.getOpen[k] == OpenEntry(p.rules, Evaluate(p, r).rule);
    if rule.identities == [] {
      tag := ANY_LABEL;
      AllStarsAcceptAll(tag, r.identity);
    } else {
      var i :| 0 <= i < |rule.identities| && Accepts(rule.identities[i], r.identity);
      tag := rule.identities[i];
    }
  }
}
