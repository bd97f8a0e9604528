/** The authorization delta between two policies, over a set of probes (internal/policy/delta.go). */
module Delta {
  import opened Bytes
  import opened GlobLaws
  import opened Policy
  import opened Coverage
  import opened Edit

  datatype Probe = Probe(ref: Text, identity: Text, mode: Text, agent: bool)

  const AGENT_MARKER: Text := "(simulated agent)"

  function RequestOf(pr: Probe, at: Instant): Request {
    Request(pr.ref, pr.identity, pr.mode, at, if pr.agent then AGENT_MARKER else [])
  }

  datatype Change = Change(probe: Probe, wasAllow: bool, nowAllow: bool, wasRule: int, nowRule: int) {
    predicate Granted() { !wasAllow && nowAllow }
  }

  datatype Delta = Delta(changes: seq<Change>, probed: nat, timeConditional: seq<int>, at: Instant)

  // ----- The delta -----

  function Compared(old_: Option<Policy>, updated: Option<Policy>, pr: Probe, at: Instant): Change {
    var (wasAllow, wasRule) := Decide(old_, RequestOf(pr, at));
    var (nowAllow, nowRule) := Decide(updated, RequestOf(pr, at));
    Change(pr, wasAllow, nowAllow, wasRule, nowRule)
  }

  predicate Changed(c: Change) { c.wasAllow != c.nowAllow }

  function Changes(old_: Option<Policy>, updated: Option<Policy>, probes: seq<Probe>, at: Instant): seq<Change> {
    if probes == [] then []
    else
      var c := Compared(old_, updated, probes[|probes| - 1], at);
      Changes(old_, updated, probes[..|probes| - 1], at) + if Changed(c) then [c] else []
  }

  /** The scheduled rules among the first n, in order. */
  function ScheduledRules(rules: seq<Rule>, n: nat): seq<int>
    requires n <= |rules|
  {
    if n == 0 then []
    else ScheduledRules(rules, n - 1) + if Scheduled(rules[n - 1]) then [n - 1] else []
  }

  method DiffAuthorization(old_: Option<Policy>, updated: Option<Policy>, probes: seq<Probe>, at: Instant)
    returns (d: Delta)
    ensures d.changes == Changes(old_, updated, probes, at)
    ensures d.timeConditional
         == if updated.None? then [] else ScheduledRules(updated.value.rules, |updated.value.rules|)
    ensures d.probed == |probes| && d.at == at
  {
    var timeConditional: seq<int> := [];
    if updated.Some? {
      var rules := updated.value.rules;
      for i := 0 to |rules|
        invariant timeConditional == ScheduledRules(rules, i)
      {
        if Scheduled(rules[i]) {
          timeConditional := timeConditional + [i];
        }
      }
    }
    var changes: seq<Change> := [];
    for i := 0 to |probes|
      invariant changes == Changes(old_, updated, probes[..i], at)
    {
      assert probes[..i + 1][..i] == probes[..i];
      var c := Compared(old_, updated, probes[i], at);
      if c.wasAllow != c.nowAllow {
        changes := changes + [c];
      }
    }
    assert probes[..|probes|] == probes;
    d := Delta(changes, |probes|, timeConditional, at);
  }

  /** The delta lists exactly the probes whose decision differs, each with both decisions
      and both deciding rules. */
  lemma {:induction false} ChangesAreExact(old_: Option<Policy>, updated: Option<Policy>, probes: seq<Probe>,
                                           at: Instant, c: Change)
    ensures c in Changes(old_, updated, probes, at) <==>
              c.probe in probes && c == Compared(old_, updated, c.probe, at) && Changed(c)
  {
    if probes != [] {
      ChangesAreExact(old_, updated, probes[..|probes| - 1], at, c);
      assert probes == probes[..|probes| - 1] + [probes[|probes| - 1]];
    }
  }

  /** Rule i, or the default deny, is what decides r in the policy, with that outcome. */
  ghost predicate Decides(p: Option<Policy>, r: Request, allow: bool, i: int) {
    if p.None? then !allow && i == -1
    else
      && IsFirstMatch(p.value.rules, r, i)
      && allow == (i >= 0 && p.value.rules[i].Outcome(r.agent != []))
  }

  /** Each listed change names the first match in the old policy and in the new one. */
  lemma ChangedRules(old_: Option<Policy>, updated: Option<Policy>, probes: seq<Probe>, at: Instant, c: Change)
    requires c in Changes(old_, updated, probes, at)
    ensures c.probe in probes && c.wasAllow != c.nowAllow
    ensures Decides(old_, RequestOf(c.probe, at), c.wasAllow, c.wasRule)
    ensures Decides(updated, RequestOf(c.probe, at), c.nowAllow, c.nowRule)
  {
    ChangesAreExact(old_, updated, probes, at, c);
    var r := RequestOf(c.probe, at);
    if old_.Some? {
      EvaluateIsFirstMatch(old_.value, r);
    }
    if updated.Some? {
      EvaluateIsFirstMatch(updated.value, r);
    }
    hide IsFirstMatch, DecideFrom, Evaluate;
  }

  /** A rule is flagged exactly when it carries a schedule, be it one that never excludes anything. */
  lemma {:induction false} ScheduledRulesAreExact(rules: seq<Rule>, n: nat, i: int)
    requires n <= |rules|
    ensures i in ScheduledRules(rules, n) <==> 0 <= i < n && Scheduled(rules[i])
  {
    if n > 0 {
      ScheduledRulesAreExact(rules, n - 1, i);
    }
  }

  /** An unscheduled rule matches at every instant or at none, so a decision that moves
      with the clock is made or missed by a rule the delta flags. */
  lemma UnflaggedIsTimeless(p: Policy, pr: Probe, at: Instant, later: Instant)
    requires ScheduledRules(p.rules, |p.rules|) == []
    ensures Decide(Some(p), RequestOf(pr, at)) == Decide(Some(p), RequestOf(pr, later))
  {
    forall i | 0 <= i < |p.rules| ensures !Scheduled(p.rules[i]) {
      ScheduledRulesAreExact(p.rules, |p.rules|, i);
    }
    EvaluateIsFirstMatch(p, RequestOf(pr, at));
    EvaluateIsFirstMatch(p, RequestOf(pr, later));
    FirstMatchDecides(p, RequestOf(pr, later), Evaluate(p, RequestOf(pr, at)).rule);
  }

  // ----- Unexpected changes -----

  /** Whether the first listed change of probe pr moved as c did. */
  predicate MovedSameWay(changes: seq<Change>, pr: Probe, c: Change) {
    if changes == [] then false
    else if changes[0].probe == pr then changes[0].wasAllow == c.wasAllow && changes[0].nowAllow == c.nowAllow
    else MovedSameWay(changes[1..], pr, c)
  }

  predicate IsExpected(changes: seq<Change>, want: seq<Probe>, c: Change) {
    || c.probe in want
    || (c.probe.agent && c.probe.(agent := false) in want && MovedSameWay(changes, c.probe.(agent := false), c))
  }

  /** The changes of a list that are not expected among all of them, in order. */
  function SideEffects(listed: seq<Change>, all: seq<Change>, want: seq<Probe>): seq<Change> {
    if listed == [] then []
    else
      var c := listed[|listed| - 1];
      SideEffects(listed[..|listed| - 1], all, want) + if IsExpected(all, want, c) then [] else [c]
  }

  method Unexpected(d: Delta, want: seq<Probe>) returns (out: seq<Change>)
    ensures out == SideEffects(d.changes, d.changes, want)
    ensures forall c :: c in out <==> c in d.changes && !IsExpected(d.changes, want, c)
  {
    out := [];
    for i := 0 to |d.changes|
      invariant out == SideEffects(d.changes[..i], d.changes, want)
      invariant forall c :: c in out <==> c in d.changes[..i] && !IsExpected(d.changes, want, c)
    {
      var c := d.changes[i];
      assert forall e :: e in d.changes[..i + 1] <==> e in d.changes[..i] || e == c;
      assert d.changes[..i + 1][..i] == d.changes[..i];
      var skip := c.probe in want;
      if !skip && c.probe.agent {
        var plain := c.probe.(agent := false);
        skip := plain in want && MovedSameWay(d.changes, plain, c);
      }
      if !skip {
        out := out + [c];
      }
    }
    assert d.changes[..|d.changes|] == d.changes;
  }

  lemma {:induction false} MovedSameWayIsListed(changes: seq<Change>, pr: Probe, c: Change)
    requires MovedSameWay(changes, pr, c)
    ensures exists other :: other in changes && other.probe == pr && other.wasAllow == c.wasAllow &&
              other.nowAllow == c.nowAllow
  {
    if changes[0].probe == pr {
      assert changes[0] in changes;
    } else {
      MovedSameWayIsListed(changes[1..], pr, c);
      var other :| other in changes[1..] && other.probe == pr && other.wasAllow == c.wasAllow &&
        other.nowAllow == c.nowAllow;
      assert other in changes;
    }
  }

  /** With nothing unexpected, every probed request outside the requested ones and their
      agent twins keeps its decision; a twin that moved, moved as the requested probe did. */
  lemma NothingUnexpected(old_: Option<Policy>, updated: Option<Policy>, probes: seq<Probe>, at: Instant,
                          want: seq<Probe>, pr: Probe)
    requires var changes := Changes(old_, updated, probes, at);
             forall c :: c in changes ==> IsExpected(changes, want, c)
    requires pr in probes && Decide(old_, RequestOf(pr, at)).0 != Decide(updated, RequestOf(pr, at)).0
    ensures pr in want ||
            (var plain := pr.(agent := false);
             && pr.agent && plain in want && plain in probes
             && Decide(old_, RequestOf(plain, at)).0 == Decide(old_, RequestOf(pr, at)).0
             && Decide(updated, RequestOf(plain, at)).0 == Decide(updated, RequestOf(pr, at)).0)
  {
    var changes := Changes(old_, updated, probes, at);
    var c := Compared(old_, updated, pr, at);
    ChangesAreExact(old_, updated, probes, at, c);
    if pr !in want {
      var plain := pr.(agent := false);
      MovedSameWayIsListed(changes, plain, c);
      var other :| other in changes && other.probe == plain && other.wasAllow == c.wasAllow &&
        other.nowAllow == c.nowAllow;
      ChangesAreExact(old_, updated, probes, at, other);
    }
  }

  /** The delta of inserting a built grant holds only new allows, all at requests the
      grant matches and all decided by it. */
  lemma GrantDelta(p: Policy, g: GrantRequest, i: nat, probes: seq<Probe>, at: Instant, c: Change)
    requires BuildGrantRule(g).Built? && i <= |p.rules|
    requires c in Changes(Some(p), InsertRule(p, BuildGrantRule(g).rule, i), probes, at)
    ensures c.Granted() && c.nowRule == i && BuildGrantRule(g).rule.Matches(RequestOf(c.probe, at))
  {
    var q := InsertRule(p, BuildGrantRule(g).rule, i);
    ChangesAreExact(Some(p), q, probes, at, c);
    var r := RequestOf(c.probe, at);
    EvaluateIsFirstMatch(p, r);
    EvaluateIsFirstMatch(q.value, r);
    GrantOnlyGrants(p, g, i, r);
  }

  // ----- Probe sets -----

  const MODES: seq<Text> := [GET, EXEC, MOUNT]

  predicate SetsDenyAgents(p: Policy) { exists i :: 0 <= i < |p.rules| && p.rules[i].denyAgents }

  predicate RefInRules(rules: seq<Rule>, n: nat, ref: Text)
    requires n <= |rules|
  {
    exists i :: 0 <= i < n && ref in rules[i].secrets
  }

  predicate IdentityInRules(rules: seq<Rule>, n: nat, identity: Text)
    requires n <= |rules|
  {
    exists i :: 0 <= i < n && identity in rules[i].identities
  }

  predicate RefInPolicy(p: Option<Policy>, ref: Text) {
    p.Some? && RefInRules(p.value.rules, |p.value.rules|, ref)
  }

  predicate IdentityInPolicy(p: Option<Policy>, identity: Text) {
    p.Some? && IdentityInRules(p.value.rules, |p.value.rules|, identity)
  }

  /** A ref that a rule of the first n policies, or one of the first m extra probes, names. */
  ghost predicate NamedRef(policies: seq<Option<Policy>>, n: nat, extra: seq<Probe>, m: nat, ref: Text)
    requires n <= |policies| && m <= |extra|
  {
    || (exists k :: 0 <= k < n && RefInPolicy(policies[k], ref))
    || (exists e :: 0 <= e < m && extra[e].ref == ref)
  }

  /** An identity so named, or the empty label. */
  ghost predicate NamedIdentity(policies: seq<Option<Policy>>, n: nat, extra: seq<Probe>, m: nat, identity: Text)
    requires n <= |policies| && m <= |extra|
  {
    || identity == []
    || (exists k :: 0 <= k < n && IdentityInPolicy(policies[k], identity))
    || (exists e :: 0 <= e < m && extra[e].identity == identity)
  }

  predicate AgentMatters(policies: seq<Option<Policy>>, n: nat)
    requires n <= |policies|
  {
    exists k :: 0 <= k < n && policies[k].Some? && SetsDenyAgents(policies[k].value)
  }

  const ANY_REF: Text := "*"

  /** A ref the probe set covers: a named one, or a placeholder when none is named. */
  ghost predicate ProbedRef(policies: seq<Option<Policy>>, extra: seq<Probe>, ref: Text) {
    || NamedRef(policies, |policies|, extra, |extra|, ref)
    || (ref == ANY_REF && forall r: Text :: !NamedRef(policies, |policies|, extra, |extra|, r))
  }

  /** The cross product: every probed ref, named identity and mode, with the agent
      context where some policy makes it matter. */
  ghost predicate InCross(policies: seq<Option<Policy>>, extra: seq<Probe>, pr: Probe) {
    && ProbedRef(policies, extra, pr.ref)
    && NamedIdentity(policies, |policies|, extra, |extra|, pr.identity)
    && pr.mode in MODES
    && (pr.agent ==> AgentMatters(policies, |policies|))
  }

  ghost predicate Distinct<T>(s: seq<T>) { forall i, j :: 0 <= i < j < |s| ==> s[i] != s[j] }

  function PerMode(ref: Text, id: Text, m: nat, agentMatters: bool): seq<Probe>
    requires m <= |MODES|
  {
    if m == 0 then []
    else
      PerMode(ref, id, m - 1, agentMatters) + [Probe(ref, id, MODES[m - 1], false)]
      + if agentMatters then [Probe(ref, id, MODES[m - 1], true)] else []
  }

  function PerIdentity(ref: Text, ids: seq<Text>, agentMatters: bool): seq<Probe> {
    if ids == [] then []
    else PerIdentity(ref, ids[..|ids| - 1], agentMatters) + PerMode(ref, ids[|ids| - 1], |MODES|, agentMatters)
  }

  function Cross(refs: seq<Text>, ids: seq<Text>, agentMatters: bool): seq<Probe> {
    if refs == [] then []
    else Cross(refs[..|refs| - 1], ids, agentMatters) + PerIdentity(refs[|refs| - 1], ids, agentMatters)
  }

  lemma DistinctParts<T>(a: seq<T>, b: seq<T>)
    requires Distinct(a) && Distinct(b) && forall x :: x in a ==> x !in b
    ensures Distinct(a + b)
  {
    forall i, j | 0 <= i < j < |a + b| ensures (a + b)[i] != (a + b)[j] {
      if i < |a| <= j {
        assert a[i] in a && b[j - |a|] in b;
      }
    }
  }

  lemma {:induction false} PerModeIsExact(ref: Text, id: Text, m: nat, agentMatters: bool)
    requires m <= |MODES|
    ensures Distinct(PerMode(ref, id, m, agentMatters))
    ensures forall pr :: pr in PerMode(ref, id, m, agentMatters) <==>
              pr.ref == ref && pr.identity == id && pr.mode in MODES[..m] && (pr.agent ==> agentMatters)
  {
    if m > 0 {
      PerModeIsExact(ref, id, m - 1, agentMatters);
      assert MODES[..m] == MODES[..m - 1] + [MODES[m - 1]];
      assert GET[0] == 'g' && EXEC[0] == 'e' && MOUNT[0] == 'm';
    }
  }

  lemma {:induction false} PerIdentityIsExact(ref: Text, ids: seq<Text>, agentMatters: bool)
    requires Distinct(ids)
    ensures Distinct(PerIdentity(ref, ids, agentMatters))
    ensures forall pr :: pr in PerIdentity(ref, ids, agentMatters) <==>
              pr.ref == ref && pr.identity in ids && pr.mode in MODES && (pr.agent ==> agentMatters)
  {
    if ids != [] {
      var rest, last := ids[..|ids| - 1], ids[|ids| - 1];
      PerIdentityIsExact(ref, rest, agentMatters);
      PerModeIsExact(ref, last, |MODES|, agentMatters);
      assert MODES[..|MODES|] == MODES && ids == rest + [last];
      DistinctParts(PerIdentity(ref, rest, agentMatters), PerMode(ref, last, |MODES|, agentMatters));
    }
  }

  lemma {:induction false} CrossIsExact(refs: seq<Text>, ids: seq<Text>, agentMatters: bool)
    requires Distinct(refs) && Distinct(ids)
    ensures Distinct(Cross(refs, ids, agentMatters))
    ensures forall pr :: pr in Cross(refs, ids, agentMatters) <==>
              pr.ref in refs && pr.identity in ids && pr.mode in MODES && (pr.agent ==> agentMatters)
  {
    if refs != [] {
      var rest, last := refs[..|refs| - 1], refs[|refs| - 1];
      CrossIsExact(rest, ids, agentMatters);
      PerIdentityIsExact(last, ids, agentMatters);
      assert refs == rest + [last];
      DistinctParts(Cross(rest, ids, agentMatters), PerIdentity(last, ids, agentMatters));
    }
  }

  lemma CrossStarts(agentMatters: bool)
    ensures forall ids :: Cross([], ids, agentMatters) == []
  {
  }

  lemma PerIdentityStarts(ref: Text, agentMatters: bool)
    ensures PerIdentity(ref, [], agentMatters) == []
  {
  }

  lemma PerModeStarts(ref: Text, id: Text, agentMatters: bool)
    ensures PerMode(ref, id, 0, agentMatters) == []
  {
  }

  lemma PerModeStep(before: seq<Probe>, ref: Text, id: Text, m: nat, agentMatters: bool)
    requires m < |MODES|
    ensures before + PerMode(ref, id, m + 1, agentMatters)
         == before + PerMode(ref, id, m, agentMatters) + [Probe(ref, id, MODES[m], false)]
            + if agentMatters then [Probe(ref, id, MODES[m], true)] else []
  {
    Regroup(before, PerMode(ref, id, m, agentMatters), [Probe(ref, id, MODES[m], false)]);
  }

  lemma PerIdentityStep(ref: Text, ids: seq<Text>, j: nat, agentMatters: bool)
    requires j < |ids|
    ensures PerIdentity(ref, ids[..j + 1], agentMatters)
         == PerIdentity(ref, ids[..j], agentMatters) + PerMode(ref, ids[j], |MODES|, agentMatters)
  {
    assert ids[..j + 1][..j] == ids[..j];
  }

  lemma CrossStep(refs: seq<Text>, i: nat, ids: seq<Text>, agentMatters: bool)
    requires i < |refs|
    ensures Cross(refs[..i + 1], ids, agentMatters)
         == Cross(refs[..i], ids, agentMatters) + PerIdentity(refs[i], ids, agentMatters)
  {
    assert refs[..i + 1][..i] == refs[..i];
  }

  method CrossProduct(refs: seq<Text>, ids: seq<Text>, agentMatters: bool) returns (out: seq<Probe>)
    ensures out == Cross(refs, ids, agentMatters)
  {
    CrossStarts(agentMatters);
    hide *;
    out := [];
    assert refs[..0] == [];
    for i := 0 to |refs|
      invariant out == Cross(refs[..i], ids, agentMatters)
    {
      ghost var done := out;
      PerIdentityStarts(refs[i], agentMatters);
      assert ids[..0] == [];
      for j := 0 to |ids|
        invariant out == done + PerIdentity(refs[i], ids[..j], agentMatters)
      {
        ghost var before := out;
        PerModeStarts(refs[i], ids[j], agentMatters);
        for m := 0 to |MODES|
          invariant out == before + PerMode(refs[i], ids[j], m, agentMatters)
        {
          PerModeStep(before, refs[i], ids[j], m, agentMatters);
          out := out + [Probe(refs[i], ids[j], MODES[m], false)];
          if agentMatters {
            out := out + [Probe(refs[i], ids[j], MODES[m], true)];
          }
        }
        PerIdentityStep(refs[i], ids, j, agentMatters);
        Regroup(done, PerIdentity(refs[i], ids[..j], agentMatters), PerMode(refs[i], ids[j], |MODES|, agentMatters));
      }
      assert ids[..|ids|] == ids;
      CrossStep(refs, i, ids, agentMatters);
    }
    assert refs[..|refs|] == refs;
  }

  /** The names and the agent flag the probe set is built from. */
  method NamesOf(policies: seq<Option<Policy>>, extra: seq<Probe>)
    returns (refs: set<Text>, ids: set<Text>, agentMatters: bool)
    ensures forall s: Text :: s in refs <==> NamedRef(policies, |policies|, extra, |extra|, s)
    ensures forall s: Text :: s in ids <==> NamedIdentity(policies, |policies|, extra, |extra|, s)
    ensures agentMatters == AgentMatters(policies, |policies|)
  {
    refs, ids, agentMatters := {}, {[]}, false;
    for k := 0 to |policies|
      invariant forall s: Text :: s in refs <==> NamedRef(policies, k, extra, 0, s)
      invariant forall s: Text :: s in ids <==> NamedIdentity(policies, k, extra, 0, s)
      invariant agentMatters == AgentMatters(policies, k)
    {
      hide RefInRules, IdentityInRules, SetsDenyAgents;
      if policies[k].Some? {
        refs, ids, agentMatters := NamesOfRules(policies[k].value, refs, ids, agentMatters);
      }
    }
    for e := 0 to |extra|
      invariant forall s: Text :: s in refs <==> NamedRef(policies, |policies|, extra, e, s)
      invariant forall s: Text :: s in ids <==> NamedIdentity(policies, |policies|, extra, e, s)
    {
      hide RefInPolicy, IdentityInPolicy;
      refs := refs + {extra[e].ref};
      ids := ids + {extra[e].identity};
    }
  }

  /** One policy's names, added to those before it. */
  method NamesOfRules(p: Policy, refs0: set<Text>, ids0: set<Text>, agent0: bool)
    returns (refs: set<Text>, ids: set<Text>, agentMatters: bool)
    ensures forall s: Text :: s in refs <==> s in refs0 || RefInRules(p.rules, |p.rules|, s)
    ensures forall s: Text :: s in ids <==> s in ids0 || IdentityInRules(p.rules, |p.rules|, s)
    ensures agentMatters <==> agent0 || SetsDenyAgents(p)
  {
    refs, ids, agentMatters := refs0, ids0, agent0;
    for i := 0 to |p.rules|
      invariant forall s: Text :: s in refs <==> s in refs0 || RefInRules(p.rules, i, s)
      invariant forall s: Text :: s in ids <==> s in ids0 || IdentityInRules(p.rules, i, s)
      invariant agentMatters <==> agent0 || exists j :: 0 <= j < i && p.rules[j].denyAgents
    {
      if p.rules[i].denyAgents {
        agentMatters := true;
      }
      refs := refs + set s | s in p.rules[i].secrets;
      ids := ids + set s | s in p.rules[i].identities;
    }
  }

  /** Every request the policies and the caller care about, each once. */
  method ProbeSet(policies: seq<Option<Policy>>, extra: seq<Probe>) returns (out: seq<Probe>)
    ensures Distinct(out)
    ensures forall pr :: pr in out <==> InCross(policies, extra, pr) || pr in extra
  {
    var refs, ids, agentMatters := NamesOf(policies, extra);
    if refs == {} {
      refs := {ANY_REF};
    }
    ProbedNamesCross(policies, extra, refs, ids, agentMatters);
    hide ProbedRef, NamedIdentity, AgentMatters, Cross, InCross, Distinct;
    out := CrossProduct(SortedKeys(refs), SortedKeys(ids), agentMatters);
    out := WithExtra(out, extra);
  }

  /** ProbeSet's second half: the caller's own probes, where not already there. */
  method WithExtra(cross: seq<Probe>, extra: seq<Probe>) returns (out: seq<Probe>)
    requires Distinct(cross)
    ensures Distinct(out) && forall pr :: pr in out <==> pr in cross || pr in extra
  {
    out := cross;
    for e := 0 to |extra|
      invariant Distinct(out)
      invariant forall pr :: pr in out <==> pr in cross || pr in extra[..e]
    {
      assert extra[..e + 1] == extra[..e] + [extra[e]];
      if extra[e] !in out {
        DistinctParts(out, [extra[e]]);
        out := out + [extra[e]];
      }
    }
    assert extra[..|extra|] == extra;
  }

  lemma ProbedNamesCross(policies: seq<Option<Policy>>, extra: seq<Probe>, refs: set<Text>, ids: set<Text>,
                         agentMatters: bool)
    requires forall s: Text :: s in refs <==> ProbedRef(policies, extra, s)
    requires forall s: Text :: s in ids <==> NamedIdentity(policies, |policies|, extra, |extra|, s)
    requires agentMatters == AgentMatters(policies, |policies|)
    ensures Distinct(SortedKeys(refs)) && Distinct(SortedKeys(ids))
    ensures var cross := Cross(SortedKeys(refs), SortedKeys(ids), agentMatters);
            Distinct(cross) && forall pr :: pr in cross <==> InCross(policies, extra, pr)
  {
    SortedKeysAscend(refs);
    SortedKeysAscend(ids);
    CrossIsExact(SortedKeys(refs), SortedKeys(ids), agentMatters);
  }

  /** Leaving the agent context out, where no rule sets deny_agents, loses nothing: an
      agent probe is decided as its twin, by the same rule. */
  lemma TwinsLeftOutAgree(p: Policy, pr: Probe, at: Instant)
    requires !SetsDenyAgents(p)
    ensures Decide(Some(p), RequestOf(pr.(agent := true), at)) == Decide(Some(p), RequestOf(pr.(agent := false), at))
  {
    var r := RequestOf(pr.(agent := true), at);
    AgentTwin(p, r);
    EvaluateIsFirstMatch(p, r);
    EvaluateIsFirstMatch(p, r.(agent := []));
  }

  // ----- The probes of one rule -----

  function OrDefault(list: seq<Text>, default: seq<Text>): seq<Text> { if list == [] then default else list }

  method RuleProbes(r: Rule) returns (out: seq<Probe>)
    ensures forall pr :: pr in out <==>
              && pr.ref in OrDefault(r.secrets, [ANY_REF])
              && pr.identity in OrDefault(r.identities, [[]])
              && pr.mode in OrDefault(r.modes, MODES)
              && !pr.agent
  {
    var refs, ids, modes := OrDefault(r.secrets, [ANY_REF]), OrDefault(r.identities, [[]]), OrDefault(r.modes, MODES);
    out := [];
    for i := 0 to |refs|
      invariant forall pr :: pr in out <==> pr.ref in refs[..i] && pr.identity in ids && pr.mode in modes && !pr.agent
    {
      ghost var refs0 := out;
      for j := 0 to |ids|
        invariant forall pr :: pr in out <==>
                    pr in refs0 || (pr.ref == refs[i] && pr.identity in ids[..j] && pr.mode in modes && !pr.agent)
      {
        ghost var ids0 := out;
        for m := 0 to |modes|
          invariant forall pr :: pr in out <==>
                      pr in ids0 || (pr.ref == refs[i] && pr.identity == ids[j] && pr.mode in modes[..m] && !pr.agent)
        {
          out := out + [Probe(refs[i], ids[j], modes[m], false)];
          assert modes[..m + 1] == modes[..m] + [modes[m]];
        }
        assert modes[..|modes|] == modes && ids[..j + 1] == ids[..j] + [ids[j]];
      }
      assert ids[..|ids|] == ids && refs[..i + 1] == refs[..i] + [refs[i]];
    }
    assert refs[..|refs|] == refs;
  }

  /** A rule matches every one of its probes at any instant in its schedule, whatever
      wildcards its patterns hold. */
  lemma RuleMatchesItsProbes(r: Rule, pr: Probe, at: Instant)
    requires r.MatchesTime(at)
    requires pr.ref in OrDefault(r.secrets, [ANY_REF])
    requires pr.identity in OrDefault(r.identities, [[]])
    requires pr.mode in OrDefault(r.modes, MODES)
    ensures r.Matches(RequestOf(pr, at))
  {
    AcceptsItself(pr.ref);
    AcceptsItself(pr.identity);
    AcceptsItself(pr.mode);
  }
}
