/**
 Why a finite set of probes speaks for every request (internal/policy/delta.go): where
 policies are written with literals and literal prefixes, the text of a pattern stands for
 the requests the pattern is the closest name of.
 */
module Representatives {
  import opened Bytes
  import opened Glob
  import opened GlobLaws
  import opened Policy
  import opened Delta
  import opened Install

  // ----- One string -----

  /** The same of the given patterns accept both. */
  ghost predicate Alike(named: Text -> bool, s: Text, t: Text) {
    forall p: Text :: named(p) ==> Accepts(p, s) == Accepts(p, t)
  }

  ghost predicate AllPrefixed(named: Text -> bool) { forall p: Text :: named(p) ==> Prefixed(p) }

  predicate Names(named: Text -> bool, p: Text, s: Text) { named(p) && Accepts(p, s) }

  ghost predicate IsLongest(named: Text -> bool, q: Text, s: Text) {
    Names(named, q, s) && forall p: Text :: Names(named, p, s) ==> |p| <= |q|
  }

  lemma {:induction false} LongestExists(named: Text -> bool, s: Text, n: nat) returns (q: Text)
    requires forall p: Text :: Names(named, p, s) ==> |p| <= n
    requires exists p: Text :: Names(named, p, s)
    ensures IsLongest(named, q, s)
  {
    if p: Text :| Names(named, p, s) && |p| == n {
      q := p;
    } else {
      q := LongestExists(named, s, n - 1);
    }
  }

  lemma PrefixedAccepts(p: Text, s: Text)
    requires Prefixed(p) && StarFree(s)
    ensures Literal(p) ==> (Accepts(p, s) <==> p == s)
    ensures !Literal(p) ==> (Accepts(p, s) <==> p[..|p| - 1] <= s)
  {
    AcceptsIsExact(p, s);
    if Literal(p) {
      LiteralMatchesItselfOnly(p, s);
    } else {
      assert p == p[..|p| - 1] + [STAR];
      PrefixMatches(p[..|p| - 1], s);
    }
  }

  lemma StarFreePrefix(u: Text, v: Text)
    requires StarFree(u)
    ensures u <= v + [STAR] <==> u <= v
  {
    var q := v + [STAR];
    assert q[|v|] == STAR;
    assert u <= q && |u| > |v| ==> u == q;
    if u <= v {
      assert q == u + (v[|u|..] + [STAR]);
    }
  }

  /** A prefix pattern accepts the text of another exactly when it is a prefix of it; a
      literal accepts no such text. */
  lemma PrefixedAcceptsText(p: Text, q: Text)
    requires Prefixed(p) && Prefixed(q) && !Literal(q)
    ensures Accepts(p, q) <==> !Literal(p) && p[..|p| - 1] <= q[..|q| - 1]
  {
    var v := q[..|q| - 1];
    assert q == v + [STAR];
    AcceptsIsSound(p, q);
    if Literal(p) {
      LiteralMatchesItselfOnly(p, q);
    } else {
      var u := p[..|p| - 1];
      assert p == u + [STAR];
      PrefixMatches(u, q);
      StarFreePrefix(u, v);
      if u <= v {
        PrefixAcceptsPrefix(u, v);
      }
    }
  }

  /** The longest of the patterns that accept s stands for it: as text it is accepted by
      just the patterns that accept s. */
  lemma LongestIsAlike(named: Text -> bool, q: Text, s: Text)
    requires AllPrefixed(named) && StarFree(s) && !named(s) && IsLongest(named, q, s)
    ensures Alike(named, s, q)
  {
    PrefixedAccepts(q, s);
    forall p: Text | named(p) ensures Accepts(p, s) == Accepts(p, q) {
      PrefixedAccepts(p, s);
      PrefixedAcceptsText(p, q);
      if Names(named, p, s) {
        assert p[..|p| - 1] <= s && q[..|q| - 1] <= s && |p| <= |q|;
      }
    }
  }

  /** So does every string one of the patterns accepts have a stand-in among them. */
  lemma StandIn(named: Text -> bool, s: Text) returns (q: Text)
    requires AllPrefixed(named) && StarFree(s) && exists p: Text :: Names(named, p, s)
    ensures named(q) && Alike(named, s, q)
  {
    if named(s) {
      q := s;
    } else {
      forall p: Text | Names(named, p, s) ensures |p| <= |s| + 1 {
        PrefixedAccepts(p, s);
      }
      q := LongestExists(named, s, |s| + 1);
      LongestIsAlike(named, q, s);
    }
  }

  ghost predicate IsNamed(named: Text -> bool, s: Text) { exists p: Text :: Names(named, p, s) }

  /** Some probe is accepted by just the patterns that accept s. */
  ghost predicate IsProbed(named: Text -> bool, probed: Text -> bool, s: Text) {
    exists q: Text :: probed(q) && Alike(named, s, q)
  }

  /** Where every pattern is probed, a string is represented exactly when some pattern
      accepts it or some probe, like it, is accepted by none. */
  lemma ProbingExactness(named: Text -> bool, probed: Text -> bool, s: Text)
    requires AllPrefixed(named) && StarFree(s) && forall p: Text :: named(p) ==> probed(p)
    ensures IsProbed(named, probed, s) <==>
              IsNamed(named, s) || exists q: Text :: probed(q) && !IsNamed(named, q)
  {
    if IsNamed(named, s) {
      var q := StandIn(named, s);
    } else {
      forall q: Text ensures Alike(named, s, q) <==> !IsNamed(named, q) {
        assert forall p: Text :: named(p) ==> !Names(named, p, s);
        assert forall p: Text :: Names(named, p, q) <==> named(p) && Accepts(p, q);
      }
    }
  }

  // ----- Refs and identities -----

  ghost function RuleRefs(policies: seq<Option<Policy>>): Text -> bool {
    (p: Text) => exists k :: 0 <= k < |policies| && RefInPolicy(policies[k], p)
  }

  ghost function RuleIdentities(policies: seq<Option<Policy>>): Text -> bool {
    (p: Text) => exists k :: 0 <= k < |policies| && IdentityInPolicy(policies[k], p)
  }

  ghost function ProbedRefs(policies: seq<Option<Policy>>, extra: seq<Probe>): Text -> bool {
    (q: Text) => ProbedRef(policies, extra, q)
  }

  ghost function ProbedIdentities(policies: seq<Option<Policy>>, extra: seq<Probe>): Text -> bool {
    (q: Text) => NamedIdentity(policies, |policies|, extra, |extra|, q)
  }

  /** Policies written with literals and literal prefixes. */
  ghost predicate PlainlyWritten(policies: seq<Option<Policy>>) {
    AllPrefixed(RuleRefs(policies)) && AllPrefixed(RuleIdentities(policies))
  }

  ghost predicate RefIsProbed(policies: seq<Option<Policy>>, extra: seq<Probe>, ref: Text) {
    IsProbed(RuleRefs(policies), ProbedRefs(policies, extra), ref)
  }

  ghost predicate IdentityIsProbed(policies: seq<Option<Policy>>, extra: seq<Probe>, identity: Text) {
    IsProbed(RuleIdentities(policies), ProbedIdentities(policies, extra), identity)
  }

  /** What the probes cover: a ref some rule names, and every other ref if one of the
      probed refs is named by none, as the placeholder is when no rule has refs at all. */
  lemma RefProbingExactness(policies: seq<Option<Policy>>, extra: seq<Probe>, ref: Text)
    requires PlainlyWritten(policies) && StarFree(ref)
    ensures RefIsProbed(policies, extra, ref) <==>
              || IsNamed(RuleRefs(policies), ref)
              || exists q: Text :: ProbedRef(policies, extra, q) && !IsNamed(RuleRefs(policies), q)
  {
    assert forall p: Text :: RuleRefs(policies)(p) ==> ProbedRef(policies, extra, p);
    ProbingExactness(RuleRefs(policies), ProbedRefs(policies, extra), ref);
    assert forall q: Text :: ProbedRefs(policies, extra)(q) <==> ProbedRef(policies, extra, q);
  }

  /** Likewise for identities, where the empty label is always probed: every identity is
      covered unless rules accept the empty label and not it. */
  lemma IdentityProbingExactness(policies: seq<Option<Policy>>, extra: seq<Probe>, identity: Text)
    requires PlainlyWritten(policies) && StarFree(identity)
    ensures IdentityIsProbed(policies, extra, identity) <==>
              || IsNamed(RuleIdentities(policies), identity)
              || exists q: Text :: ProbedIdentities(policies, extra)(q) && !IsNamed(RuleIdentities(policies), q)
    ensures !IsNamed(RuleIdentities(policies), []) ==> IdentityIsProbed(policies, extra, identity)
  {
    assert ProbedIdentities(policies, extra)([]);
    assert forall p: Text :: RuleIdentities(policies)(p) ==> ProbedIdentities(policies, extra)(p);
    hide *;
    ProbingExactness(RuleIdentities(policies), ProbedIdentities(policies, extra), identity);
  }

  // ----- Whole requests -----

  /** The probe decides as the request does, by the same rule, in each of the policies. */
  ghost predicate Represents(policies: seq<Option<Policy>>, pr: Probe, r: Request) {
    forall k :: 0 <= k < |policies| ==> Decide(policies[k], r) == Decide(policies[k], RequestOf(pr, r.time))
  }

  ghost predicate IsCovered(policies: seq<Option<Policy>>, extra: seq<Probe>, r: Request) {
    && StarFree(r.ref) && StarFree(r.identity) && r.mode in MODES
    && RefIsProbed(policies, extra, r.ref) && IdentityIsProbed(policies, extra, r.identity)
  }

  /** A request that agrees with a probe on every pattern of a policy is decided by the
      same rule, and alike if the agent context is the same or makes no difference. */
  lemma AlikeDecisions(policies: seq<Option<Policy>>, k: nat, r: Request, q: Request)
    requires k < |policies| && r.mode == q.mode && r.time == q.time
    requires Alike(RuleRefs(policies), r.ref, q.ref) && Alike(RuleIdentities(policies), r.identity, q.identity)
    requires (r.agent != []) == (q.agent != []) || !AgentMatters(policies, |policies|)
    ensures Decide(policies[k], r) == Decide(policies[k], q)
  {
    if policies[k].Some? {
      var p := policies[k].value;
      forall i | 0 <= i < |p.rules|
        ensures p.rules[i].Matches(r) == p.rules[i].Matches(q)
        ensures p.rules[i].Outcome(r.agent != []) == p.rules[i].Outcome(q.agent != [])
      {
        forall s | s in p.rules[i].secrets ensures Accepts(s, r.ref) == Accepts(s, q.ref) {
          assert RefInPolicy(policies[k], s);
        }
        forall s | s in p.rules[i].identities ensures Accepts(s, r.identity) == Accepts(s, q.identity) {
          assert IdentityInPolicy(policies[k], s);
        }
        hide Accepts;
      }
      EvaluateIsFirstMatch(p, r);
      EvaluateIsFirstMatch(p, q);
      hide Rule.Matches, Evaluate, DecideFrom;
      FirstMatchDecides(p, q, Evaluate(p, r).rule);
    }
  }

  /** Every covered request has a probe in the set that represents it in every policy. */
  lemma ProbesRepresent(policies: seq<Option<Policy>>, extra: seq<Probe>, r: Request) returns (pr: Probe)
    requires IsCovered(policies, extra, r)
    ensures InCross(policies, extra, pr) && Represents(policies, pr, r)
    ensures pr.mode == r.mode && (pr.agent ==> r.agent != [])
  {
    var ref: Text :| ProbedRefs(policies, extra)(ref) && Alike(RuleRefs(policies), r.ref, ref);
    var identity: Text :| ProbedIdentities(policies, extra)(identity) &&
      Alike(RuleIdentities(policies), r.identity, identity);
    pr := Probe(ref, identity, r.mode, r.agent != [] && AgentMatters(policies, |policies|));
    assert AGENT_MARKER != [];
    hide Alike, RuleRefs, RuleIdentities, Decide;
    forall k | 0 <= k < |policies| ensures Decide(policies[k], r) == Decide(policies[k], RequestOf(pr, r.time)) {
      AlikeDecisions(policies, k, r, RequestOf(pr, r.time));
    }
  }

  /** An empty delta over the probe set is a promise about every covered request: none
      changes decision at that instant. */
  lemma EmptyDeltaMeansNoChange(old_: Policy, updated: Policy, extra: seq<Probe>, probes: seq<Probe>, r: Request)
    requires IsCovered([Some(old_), Some(updated)], extra, r)
    requires forall pr :: pr in probes <==> InCross([Some(old_), Some(updated)], extra, pr) || pr in extra
    requires Changes(Some(old_), Some(updated), probes, r.time) == []
    ensures Decide(Some(old_), r).0 == Decide(Some(updated), r).0
  {
    var policies := [Some(old_), Some(updated)];
    var pr := ProbesRepresent(policies, extra, r);
    hide InCross, Decide;
    assert Decide(policies[0], r) == Decide(policies[0], RequestOf(pr, r.time));
    assert Decide(policies[1], r) == Decide(policies[1], RequestOf(pr, r.time));
    ChangesAreExact(Some(old_), Some(updated), probes, r.time, Compared(Some(old_), Some(updated), pr, r.time));
  }

  /** And an install that moved only what was requested moved no covered request but those
      that a requested probe, or the agent twin of one, represents. */
  lemma InstallMovesOnlyWhatWasRequested(t: Transaction, installed: Policy, r: Request) returns (pr: Probe)
    requires t.expected.Some? && MovesOnlyRequested(t, Some(installed), r.time)
    requires IsCovered([Some(t.live), Some(installed)], t.expected.value, r)
    requires Decide(LivePolicy(t), r).0 != Decide(Some(installed), r).0
    ensures Represents([LivePolicy(t), Some(installed)], pr, r) && pr.mode == r.mode
    ensures pr in t.expected.value || (pr.agent && pr.(agent := false) in t.expected.value)
  {
    var policies := [Some(t.live), Some(installed)];
    pr := ProbesRepresent(policies, t.expected.value, r);
    assert Decide(None, r) == Decide(None, RequestOf(pr, r.time));
    hide InCross, Decide;
    assert Decide(policies[0], r) == Decide(policies[0], RequestOf(pr, r.time));
    assert Decide(policies[1], r) == Decide(policies[1], RequestOf(pr, r.time));
    assert Probed(t, installed, t.expected.value, pr) && Moves(t, installed, r.time, pr);
  }

  function DenyOf(ref: Text): Rule { Rule(false, [], [ref], [], [], [], [], [], false) }

  function AllowAll(): Rule { Rule(true, [], [], [], [], [], [], [], false) }

  /** What the probes miss: below a rule for one ref, a rule for every ref is added. No
      probe changes decision, and every request for another ref does. */
  lemma UnnamedRefIsMissed(ref: Text, r: Request)
    requires StarFree(ref) && QUESTION !in ref && StarFree(r.ref) && r.ref != ref
    ensures var old_, updated := Policy(1, [DenyOf(ref)]), Policy(1, [DenyOf(ref), AllowAll()]);
            && !RefIsProbed([Some(old_), Some(updated)], [], r.ref)
            && (forall pr :: InCross([Some(old_), Some(updated)], [], pr) ==>
                  Decide(Some(old_), RequestOf(pr, r.time)).0 == Decide(Some(updated), RequestOf(pr, r.time)).0)
            && Decide(Some(old_), r).0 != Decide(Some(updated), r).0
  {
    var old_, updated := Policy(1, [DenyOf(ref)]), Policy(1, [DenyOf(ref), AllowAll()]);
    var policies := [Some(old_), Some(updated)];
    AcceptsItself(ref);
    AcceptsIsExact(ref, r.ref);
    LiteralMatchesItselfOnly(ref, r.ref);
    OnlyRefNamed(ref, policies);
    forall pr | InCross(policies, [], pr)
      ensures Decide(Some(old_), RequestOf(pr, r.time)).0 == Decide(Some(updated), RequestOf(pr, r.time)).0
    {
      assert pr.ref == ref;
      assert DenyOf(ref).Matches(RequestOf(pr, r.time));
    }
    assert !DenyOf(ref).Matches(r) && AllowAll().Matches(r);
    FirstMatchDecides(old_, r, -1);
    FirstMatchDecides(updated, r, 1);
    EvaluateIsFirstMatch(old_, r);
    EvaluateIsFirstMatch(updated, r);
  }

  lemma OnlyRefNamed(ref: Text, policies: seq<Option<Policy>>)
    requires policies == [Some(Policy(1, [DenyOf(ref)])), Some(Policy(1, [DenyOf(ref), AllowAll()]))]
    ensures forall q: Text :: ProbedRef(policies, [], q) <==> q == ref
    ensures forall q: Text :: RuleRefs(policies)(q) <==> q == ref
  {
    assert policies[0].value.rules[0] == DenyOf(ref) && ref in DenyOf(ref).secrets;
    assert RefInRules(policies[0].value.rules, 1, ref);
    assert RefInPolicy(policies[0], ref);
    assert NamedRef(policies, |policies|, [], 0, ref);
    forall q: Text, k | 0 <= k < 2 && RefInPolicy(policies[k], q) ensures q == ref {
      var i :| 0 <= i < |policies[k].value.rules| && q in policies[k].value.rules[i].secrets;
      assert i == 0;
    }
  }

  // ----- Patterns whose text stands for nothing they share -----

  /** Among two patterns, the text of one is accepted by just those that accept s. */
  predicate StandsFor(x: Text, y: Text, q: Text, s: Text) {
    Accepts(x, q) == Accepts(x, s) && Accepts(y, q) == Accepts(y, s)
  }

  /** Whatever x or y accepts, the text of x or that of y stands for. */
  ghost predicate TextsSuffice(x: Text, y: Text) {
    forall s: Text :: StarFree(s) && (Accepts(x, s) || Accepts(y, s)) ==> StandsFor(x, y, x, s) || StandsFor(x, y, y, s)
  }

  /** A string both accept has a stand-in exactly when one accepts the text of the other. */
  lemma SharedStandIn(x: Text, y: Text, s: Text)
    requires Accepts(x, s) && Accepts(y, s)
    ensures StandsFor(x, y, x, s) || StandsFor(x, y, y, s) <==> TextsOverlap(x, y)
  {
    AcceptsItself(x);
    AcceptsItself(y);
  }

  /** A pattern's text is a representative beside every other pattern exactly when the
      pattern is a literal. */
  lemma TextExactness(x: Text)
    ensures (forall y: Text :: TextsSuffice(x, y)) <==> Literal(x)
  {
    OverlapExactness(x);
    if Literal(x) {
      forall y: Text ensures TextsSuffice(x, y) {
        LiteralSuffices(x, y);
      }
    } else {
      var y: Text :| TextsOverlap(x, y) != HaveCommonText(x, y);
      if TextsOverlap(x, y) {
        TextOverlapIsReal(x, y);
      }
      var s: Text :| StarFree(s) && Accepts(x, s) && Accepts(y, s);
      SharedStandIn(x, y, s);
      assert !TextsSuffice(x, y);
    }
  }

  lemma LiteralSuffices(x: Text, y: Text)
    requires Literal(x)
    ensures TextsSuffice(x, y)
  {
    forall s: Text | StarFree(s) && (Accepts(x, s) || Accepts(y, s))
      ensures StandsFor(x, y, x, s) || StandsFor(x, y, y, s)
    {
      AcceptsItself(x);
      AcceptsItself(y);
      LiteralAccepts(x, s);
      LiteralAccepts(x, y);
    }
  }

  lemma LiteralAccepts(x: Text, s: Text)
    requires Literal(x)
    ensures Accepts(x, s) <==> s == x
  {
    AcceptsItself(x);
    AcceptsIsSound(x, s);
    LiteralMatchesItselfOnly(x, s);
  }

  function AllowOf(ref: Text): Rule { Rule(true, [], [ref], [], [], [], [], [], false) }

  function DenyFirst(x: Text, y: Text): Policy { Policy(1, [DenyOf(x), AllowOf(y)]) }

  function AllowFirst(x: Text, y: Text): Policy { Policy(1, [AllowOf(y), DenyOf(x)]) }

  function Swap(x: Text, y: Text): seq<Option<Policy>> { [Some(DenyFirst(x, y)), Some(AllowFirst(x, y))] }

  /** Both decisions, before and after the two rules change places. */
  predicate Flips(x: Text, y: Text, r: Request) {
    Decide(Some(DenyFirst(x, y)), r).0 != Decide(Some(AllowFirst(x, y)), r).0
  }

  /** The swap changes just the requests both patterns accept. */
  lemma SharedRequestsFlip(x: Text, y: Text, r: Request)
    ensures Flips(x, y, r) <==> Accepts(x, r.ref) && Accepts(y, r.ref)
  {
    RefRuleMatches(x, r);
    RefRuleMatches(y, r);
    hide Accepts, Rule.Matches;
    var p, q := DenyFirst(x, y), AllowFirst(x, y);
    EvaluateIsFirstMatch(p, r);
    EvaluateIsFirstMatch(q, r);
    hide Evaluate, Decide;
    FirstMatchDecides(p, r, if Accepts(x, r.ref) then 0 else if Accepts(y, r.ref) then 1 else -1);
    FirstMatchDecides(q, r, if Accepts(y, r.ref) then 0 else if Accepts(x, r.ref) then 1 else -1);
  }

  lemma RefRuleMatches(x: Text, r: Request)
    ensures DenyOf(x).Matches(r) <==> Accepts(x, r.ref)
    ensures AllowOf(x).Matches(r) <==> Accepts(x, r.ref)
  {
    assert Accepts([x][0], r.ref) == Accepts(x, r.ref);
  }

  lemma SwapNames(x: Text, y: Text)
    ensures forall q: Text :: ProbedRef(Swap(x, y), [], q) <==> q == x || q == y
  {
    var policies := Swap(x, y);
    var rules := DenyFirst(x, y).rules;
    assert x in rules[0].secrets && y in rules[1].secrets;
    assert RefInPolicy(policies[0], x) && RefInPolicy(policies[0], y);
    assert NamedRef(policies, |policies|, [], 0, x) && NamedRef(policies, |policies|, [], 0, y);
    forall q: Text, k | 0 <= k < 2 && RefInPolicy(policies[k], q) ensures q == x || q == y {
      var i :| 0 <= i < |policies[k].value.rules| && q in policies[k].value.rules[i].secrets;
      assert policies[k].value.rules[i] == DenyOf(x) || policies[k].value.rules[i] == AllowOf(y);
    }
  }

  /** Two rules the overlap test tells apart, meeting in a string all the same, change
      places: the probes show no change and the string's decision flips. */
  lemma SharedRefIsMissed(x: Text, y: Text, pr: Probe, r: Request)
    requires !TextsOverlap(x, y) && Accepts(x, r.ref) && Accepts(y, r.ref)
    ensures InCross(Swap(x, y), [], pr) ==> !Flips(x, y, RequestOf(pr, r.time))
    ensures Flips(x, y, r)
  {
    SwapNames(x, y);
    SharedRequestsFlip(x, y, RequestOf(pr, r.time));
    SharedRequestsFlip(x, y, r);
  }

  const STARTS_WITH_A: Text := "a*"
  const ENDS_WITH_B: Text := "*b"
  const AB: Text := "ab"

  /** For one, deny `a*` above allow `*b`, the other way round, and the ref `ab`. */
  lemma AbIsMissed(pr: Probe, r: Request)
    requires r.ref == AB
    ensures InCross(Swap(STARTS_WITH_A, ENDS_WITH_B), [], pr) ==>
              !Flips(STARTS_WITH_A, ENDS_WITH_B, RequestOf(pr, r.time))
    ensures Flips(STARTS_WITH_A, ENDS_WITH_B, r)
  {
    assert AB == ['a', 'b'] && STARTS_WITH_A == ['a', STAR] && ENDS_WITH_B == [STAR, 'b'];
    AcceptsItself([STAR]);
    assert AB[1..] == ['b'] && AB[2..] == [] && STARTS_WITH_A[1..] == [STAR] && ENDS_WITH_B[1..] == ['b'];
    assert STARTS_WITH_A[0] != ENDS_WITH_B[0];
    assert [STAR][1..] == [] && ['b'][1..] == [];
    assert Accepts([], []) && Accepts(['b'], ['b']) && Accepts([STAR], ['b']);
    assert Accepts(STARTS_WITH_A, AB) && Accepts(ENDS_WITH_B, AB);
    assert !TextsOverlap(STARTS_WITH_A, ENDS_WITH_B);
    SharedRefIsMissed(STARTS_WITH_A, ENDS_WITH_B, pr, r);
  }

  /** When the probes show no change, the swap changes no star-free request. */
  ghost predicate SwapIsSeen(x: Text, y: Text, at: Instant) {
    (forall pr :: InCross(Swap(x, y), [], pr) ==> !Flips(x, y, RequestOf(pr, at)))
    ==> forall r: Request :: StarFree(r.ref) && r.time == at ==> !Flips(x, y, r)
  }

  /** So an empty delta can be trusted about a swap with every other rule exactly when the
      rule's pattern is a literal. */
  lemma SwapExactness(x: Text, at: Instant)
    ensures (forall y: Text :: SwapIsSeen(x, y, at)) <==> Literal(x)
  {
    OverlapExactness(x);
    if Literal(x) {
      forall y: Text ensures SwapIsSeen(x, y, at) {
        LiteralSwapIsSeen(x, y, at);
      }
    } else {
      var y: Text :| TextsOverlap(x, y) != HaveCommonText(x, y);
      if TextsOverlap(x, y) {
        TextOverlapIsReal(x, y);
      }
      var s: Text :| StarFree(s) && Accepts(x, s) && Accepts(y, s);
      MissedSwap(x, y, s, at);
    }
  }

  lemma MissedSwap(x: Text, y: Text, s: Text, at: Instant)
    requires !TextsOverlap(x, y) && StarFree(s) && Accepts(x, s) && Accepts(y, s)
    ensures !SwapIsSeen(x, y, at)
  {
    var r := Request(s, [], GET, at, []);
    forall pr ensures InCross(Swap(x, y), [], pr) ==> !Flips(x, y, RequestOf(pr, at)) {
      SharedRefIsMissed(x, y, pr, r);
    }
    SharedRequestsFlip(x, y, r);
    assert StarFree(r.ref) && r.time == at && Flips(x, y, r);
  }

  lemma LiteralSwapIsSeen(x: Text, y: Text, at: Instant)
    requires Literal(x)
    ensures SwapIsSeen(x, y, at)
  {
    var pr := Probe(x, [], GET, false);
    SwapNames(x, y);
    assert InCross(Swap(x, y), [], pr) by {
      assert MODES[0] == GET;
    }
    SharedRequestsFlip(x, y, RequestOf(pr, at));
    AcceptsItself(x);
    forall r: Request ensures Flips(x, y, r) ==> Accepts(y, x) {
      SharedRequestsFlip(x, y, r);
      LiteralAccepts(x, r.ref);
    }
  }
}
