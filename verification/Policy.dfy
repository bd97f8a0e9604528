/**
 Rules, requests and first-match evaluation (internal/policy/policy.go, and decide in
 internal/policy/delta.go).
 */
module Policy {
  import opened Bytes
  import opened Glob

  const GET: Text := "get"
  const EXEC: Text := "exec"
  const MOUNT: Text := "mount"

  predicate KnownMode(m: Text) { m == GET || m == EXEC || m == MOUNT }

  /** The parts of a local time a rule can look at. */
  datatype Instant = Instant(weekday: Weekday, monthday: Monthday, minute: Minute)

  type Weekday = d: int | 0 <= d < 7
  type Monthday = d: int | 1 <= d <= 31 witness 1
  type Minute = m: int | 0 <= m < DAY

  const DAY: nat := 1440

  /** agent is the detected harness marker, empty when there is none. */
  datatype Request = Request(ref: Text, identity: Text, mode: Text, time: Instant, agent: Text)

  datatype Rule = Rule(
    allow: bool,
    description: Text,
    secrets: seq<Text>,
    identities: seq<Text>,
    modes: seq<Text>,
    weekdays: seq<Text>,
    monthdays: seq<int>,
    hours: Text,
    denyAgents: bool)
  {
    /** The decision this rule reaches when it matches, with or without a detected agent. */
    predicate Outcome(agent: bool) { allow && !(agent && denyAgents) }

    predicate Matches(r: Request) {
      && (secrets == [] || AnyAccepts(secrets, r.ref))
      && (identities == [] || AnyAccepts(identities, r.identity))
      && (modes == [] || AnyAccepts(modes, r.mode))
      && MatchesTime(r.time)
    }

    predicate MatchesTime(t: Instant) {
      && (weekdays == [] || WeekdayListed(weekdays, t.weekday))
      && (monthdays == [] || t.monthday in monthdays)
      && (hours == [] || HoursMatch(hours, t.minute))
    }
  }

  const SCHEMA_VERSION: int := 1

  datatype Policy = Policy(schema: int, rules: seq<Rule>)

  /** rule is the index of the deciding rule, -1 for the default deny. */
  datatype Decision = Decision(allow: bool, agentDenied: bool, rule: int)

  predicate AnyAccepts(patterns: seq<Text>, s: Text) {
    exists i :: 0 <= i < |patterns| && Accepts(patterns[i], s)
  }

  // ----- Evaluation -----

  /** i is the first rule that matches r, or -1 when none does. */
  ghost predicate IsFirstMatch(rules: seq<Rule>, r: Request, i: int) {
    && -1 <= i < |rules|
    && (i >= 0 ==> rules[i].Matches(r))
    && forall j :: 0 <= j < (if i < 0 then |rules| else i) ==> !rules[j].Matches(r)
  }

  function EvaluateFrom(rules: seq<Rule>, r: Request, i: nat): (d: Decision)
    requires i <= |rules|
    ensures -1 <= d.rule < |rules|
    decreases |rules| - i
  {
    if i == |rules| then Decision(false, false, -1)
    else if !rules[i].Matches(r) then EvaluateFrom(rules, r, i + 1)
    else if rules[i].allow && !rules[i].Outcome(r.agent != []) then Decision(false, true, i)
    else Decision(rules[i].allow, false, i)
  }

  function Evaluate(p: Policy, r: Request): (d: Decision)
    ensures -1 <= d.rule < |p.rules|
  {
    EvaluateFrom(p.rules, r, 0)
  }

  function DecideFrom(rules: seq<Rule>, r: Request, i: nat): (d: (bool, int))
    requires i <= |rules|
    ensures -1 <= d.1 < |rules|
    decreases |rules| - i
  {
    if i == |rules| then (false, -1)
    else if rules[i].Matches(r) then (rules[i].Outcome(r.agent != []), i)
    else DecideFrom(rules, r, i + 1)
  }

  /** No policy at all denies everything. */
  function Decide(p: Option<Policy>, r: Request): (bool, int) {
    if p.None? then (false, -1) else DecideFrom(p.value.rules, r, 0)
  }

  lemma {:induction false} EvaluateFromIsFirstMatch(rules: seq<Rule>, r: Request, i: nat)
    requires i <= |rules| && forall j :: 0 <= j < i ==> !rules[j].Matches(r)
    ensures var d := EvaluateFrom(rules, r, i);
            && IsFirstMatch(rules, r, d.rule)
            && d.allow == (d.rule >= 0 && rules[d.rule].Outcome(r.agent != []))
            && d.agentDenied == (d.rule >= 0 && rules[d.rule].allow && !d.allow)
            && DecideFrom(rules, r, i) == (d.allow, d.rule)
    decreases |rules| - i
  {
    if i < |rules| && !rules[i].Matches(r) {
      EvaluateFromIsFirstMatch(rules, r, i + 1);
    }
  }

  /** The first matching rule decides, and Evaluate and decide, two separate loops in
      the source, never disagree. */
  lemma EvaluateIsFirstMatch(p: Policy, r: Request)
    ensures var d := Evaluate(p, r);
            && IsFirstMatch(p.rules, r, d.rule)
            && d.allow == (d.rule >= 0 && p.rules[d.rule].Outcome(r.agent != []))
            && d.agentDenied == (d.rule >= 0 && p.rules[d.rule].allow && !d.allow)
            && Decide(Some(p), r) == (d.allow, d.rule)
  {
    EvaluateFromIsFirstMatch(p.rules, r, 0);
  }

  /** The first match is unique, so any index with its properties is the deciding rule. */
  lemma FirstMatchDecides(p: Policy, r: Request, i: int)
    requires IsFirstMatch(p.rules, r, i)
    ensures Evaluate(p, r).rule == i
    ensures Evaluate(p, r).allow == (i >= 0 && p.rules[i].Outcome(r.agent != []))
  {
    EvaluateIsFirstMatch(p, r);
  }

  /** An agent request is decided by the same rule as the same request without the
      agent, and allowed only if that one is; it differs exactly when that rule is an
      allow-rule with deny_agents. */
  lemma AgentTwin(p: Policy, r: Request)
    requires r.agent != []
    ensures var twin := Evaluate(p, r.(agent := []));
            var d := Evaluate(p, r);
            && d.rule == twin.rule
            && (d.allow ==> twin.allow)
            && (d.allow != twin.allow <==> d.rule >= 0 && p.rules[d.rule].allow && p.rules[d.rule].denyAgents)
  {
    var plain := r.(agent := []);
    EvaluateIsFirstMatch(p, r);
    assert forall j :: 0 <= j < |p.rules| ==> p.rules[j].Matches(r) == p.rules[j].Matches(plain);
    FirstMatchDecides(p, plain, Evaluate(p, r).rule);
  }

  // ----- Schedules -----

  predicate IsSpace(c: Byte) { c == ' ' || '\t' <= c <= '\r' }

  function TrimLeft(s: Text): Text {
    if s != [] && IsSpace(s[0]) then TrimLeft(s[1..]) else s
  }

  function TrimRight(s: Text): Text {
    if s != [] && IsSpace(s[|s| - 1]) then TrimRight(s[..|s| - 1]) else s
  }

  function TrimSpace(s: Text): Text { TrimRight(TrimLeft(s)) }

  function Lower(c: Byte): Byte {
    if 'A' <= c <= 'Z' then (c as int + 32) as char else c
  }

  function ToLower(s: Text): (r: Text)
    ensures |r| == |s| && forall k :: 0 <= k < |s| ==> r[k] == Lower(s[k])
  {
    seq(|s|, k requires 0 <= k < |s| => Lower(s[k]))
  }

  function WeekdayNum(name: Text): (r: Option<nat>)
    ensures r.Some? ==> r.value < 7
  {
    var n := ToLower(TrimSpace(name));
    if n == "sun" || n == "sunday" then Some(0)
    else if n == "mon" || n == "monday" then Some(1)
    else if n == "tue" || n == "tues" || n == "tuesday" then Some(2)
    else if n == "wed" || n == "weds" || n == "wednesday" then Some(3)
    else if n == "thu" || n == "thur" || n == "thurs" || n == "thursday" then Some(4)
    else if n == "fri" || n == "friday" then Some(5)
    else if n == "sat" || n == "saturday" then Some(6)
    else None
  }

  const DAY_NAMES: seq<Text> :=
    ["sunday", "monday", "tuesday", "wednesday", "thursday", "friday", "saturday"]

  const SHORT_NAMES: seq<Text> := ["sun", "mon", "tue", "wed", "thu", "fri", "sat"]

  /** The other spellings, with the day each one means. */
  const OTHER_NAMES: seq<(Text, Weekday)> := [("tues", 2), ("weds", 3), ("thur", 4), ("thurs", 4)]

  /** How a policy may spell a day, once trimmed and lowered. */
  predicate Spells(t: Text, d: Weekday) { t == DAY_NAMES[d] || t == SHORT_NAMES[d] || (t, d) in OTHER_NAMES }

  predicate AllSpaces(s: Text) { forall k :: 0 <= k < |s| ==> IsSpace(s[k]) }

  predicate NoOuterSpace(s: Text) { s != [] && !IsSpace(s[0]) && !IsSpace(s[|s| - 1]) }

  lemma {:induction false} TrimRightAway(t: Text, r: Text)
    requires NoOuterSpace(t) && AllSpaces(r)
    ensures TrimRight(t + r) == t
  {
    if r == [] {
      assert t + r == t;
    } else {
      assert (t + r)[..|t + r| - 1] == t + r[..|r| - 1];
      TrimRightAway(t, r[..|r| - 1]);
    }
  }

  lemma {:induction false} TrimLeftAway(l: Text, t: Text)
    requires AllSpaces(l) && t != [] && !IsSpace(t[0])
    ensures TrimLeft(l + t) == t
  {
    if l == [] {
      assert l + t == t;
    } else {
      assert (l + t)[1..] == l[1..] + t;
      TrimLeftAway(l[1..], t);
    }
  }

  /** Trimming removes just the space around a text. */
  lemma TrimAway(l: Text, t: Text, r: Text)
    requires AllSpaces(l) && NoOuterSpace(t) && AllSpaces(r)
    ensures TrimSpace(l + t + r) == t
  {
    assert l + t + r == l + (t + r) && (t + r)[0] == t[0];
    TrimLeftAway(l, t + r);
    TrimRightAway(t, r);
  }

  /** The names read are exactly the spellings, each as its own day. */
  lemma WeekdayExactness(name: Text, d: Weekday)
    ensures WeekdayNum(name) == Some(d) <==> Spells(ToLower(TrimSpace(name)), d)
  {
    hide TrimSpace;
  }

  /** Whatever the spelling, its first three letters are those of its day. */
  lemma SpellingBegins(t: Text, d: Weekday)
    requires Spells(t, d)
    ensures |t| >= 3 && t[..3] == DAY_NAMES[d][..3]
  {
  }

  lemma SpellingIsLetters(t: Text, d: Weekday)
    requires Spells(t, d)
    ensures t != [] && 'a' <= t[0] <= 'z' && 'a' <= t[|t| - 1] <= 'z'
  {
  }

  /** A day may be written in any case and with space around it. */
  lemma SpelledDayIsRead(l: Text, t: Text, r: Text, d: Weekday)
    requires AllSpaces(l) && AllSpaces(r) && Spells(ToLower(t), d)
    ensures WeekdayNum(l + t + r) == Some(d)
  {
    SpellingIsLetters(ToLower(t), d);
    hide Spells;
    TrimAway(l, t, r);
    WeekdayExactness(l + t + r, d);
  }

  lemma OneDayAtATime(name: Text, d: Weekday, today: Weekday)
    requires WeekdayNum(name) == Some(d)
    ensures WeekdayListed([name], today) <==> today == d
  {
    hide WeekdayNum;
    assert [name][0] == name;
  }

  /** A rule for one day, however it is spelled, matches what it would match on any day, on
      that day and on no other. */
  lemma NamedDayDecides(rule: Rule, q: Request, l: Text, t: Text, r: Text, d: Weekday)
    requires AllSpaces(l) && AllSpaces(r) && Spells(ToLower(t), d) && rule.weekdays == [l + t + r]
    ensures rule.Matches(q) <==> rule.(weekdays := []).Matches(q) && q.time.weekday == d
    ensures Evaluate(Policy(1, [rule]), q).allow <==>
              rule.(weekdays := []).Matches(q) && q.time.weekday == d && rule.Outcome(q.agent != [])
  {
    SpelledDayIsRead(l, t, r, d);
    OneDayAtATime(l + t + r, d, q.time.weekday);
    hide Spells, WeekdayNum, WeekdayListed, Accepts, HoursMatch, Evaluate;
    FirstMatchDecides(Policy(1, [rule]), q, if rule.Matches(q) then 0 else -1);
  }

  predicate WeekdayListed(names: seq<Text>, today: nat) {
    exists i :: 0 <= i < |names| && WeekdayNum(names[i]) == Some(today)
  }

  function Digits(s: Text): (n: Option<int>)
    ensures n.Some? ==> n.value >= 0
  {
    if s == [] then None
    else if s[|s| - 1] < '0' || '9' < s[|s| - 1] then None
    else
      var last: nat := (s[|s| - 1] - '0') as int;
      if |s| == 1 then Some(last)
      else
        match Digits(s[..|s| - 1])
        case None => None
        case Some(n) => Some(10 * n + last)
  }

  /** strconv.Atoi, whose range error only concerns numbers every caller here refuses anyway. */
  function Atoi(s: Text): Option<int> {
    if s != [] && s[0] == '+' then Digits(s[1..])
    else if s != [] && s[0] == '-' then
      match Digits(s[1..])
      case None => None
      case Some(n) => Some(-n)
    else Digits(s)
  }

  function ParseHM(s: Text): (r: Option<nat>)
    ensures r.Some? ==> r.value < DAY
  {
    match Cut(TrimSpace(s), ':')
    case None => None
    case Some((h, m)) =>
      match (Atoi(h), Atoi(m))
      case (Some(hh), Some(mm)) =>
        if 0 <= hh <= 23 && 0 <= mm <= 59 then Some(hh * 60 + mm) else None
      case _ => None
  }

  function ParseHours(spec: Text): (r: Option<(nat, nat)>)
    ensures r.Some? ==> r.value.0 < DAY && r.value.1 < DAY
  {
    match Cut(spec, '-')
    case None => None
    case Some((lo, hi)) =>
      match (ParseHM(lo), ParseHM(hi))
      case (Some(start), Some(end)) => Some((start, end))
      case _ => None
  }

  function TwoDigits(n: nat): (s: Text)
    requires n < 100
    ensures |s| == 2 && forall k :: 0 <= k < 2 ==> '0' <= s[k] <= '9'
  {
    [('0' as int + n / 10) as char, ('0' as int + n % 10) as char]
  }

  /** A minute of the day, written HH:MM. */
  function Clock(minute: nat): (s: Text)
    requires minute < DAY
    ensures |s| == 5 && s[2] == ':' && forall k :: 0 <= k < 5 && k != 2 ==> '0' <= s[k] <= '9'
  {
    TwoDigits(minute / 60) + ":" + TwoDigits(minute % 60)
  }

  lemma AtoiTwoDigits(n: nat)
    requires n < 100
    ensures Atoi(TwoDigits(n)) == Some(n)
  {
    var s := TwoDigits(n);
    assert s[..1] == [s[0]];
    assert Digits(s[..1]) == Some(n / 10);
  }

  lemma ClockRoundTrip(minute: nat)
    requires minute < DAY
    ensures ParseHM(Clock(minute)) == Some(minute)
  {
    AtoiTwoDigits(minute / 60);
    AtoiTwoDigits(minute % 60);
    CutAtFirst(TwoDigits(minute / 60), ':', TwoDigits(minute % 60));
    assert TrimSpace(Clock(minute)) == Clock(minute);
    hide Cut, Atoi, TrimSpace, TwoDigits;
  }

  function Hours(start: nat, end: nat): Text
    requires start < DAY && end < DAY
  {
    Clock(start) + "-" + Clock(end)
  }

  /** Every window of the day written HH:MM-HH:MM is read back as it was meant. */
  lemma HoursRoundTrip(start: nat, end: nat)
    requires start < DAY && end < DAY
    ensures ParseHours(Hours(start, end)) == Some((start, end)) && Hours(start, end) != []
  {
    ClockRoundTrip(start);
    ClockRoundTrip(end);
    hide ParseHM, Clock;
    assert '-' !in Clock(start);
    CutAtFirst(Clock(start), '-', Clock(end));
    assert Clock(start) + ['-'] + Clock(end) == Clock(start) + "-" + Clock(end);
  }

  /** A rule for one window matches what it would match at any hour, within the stretch of
      the clock face walked from its start to its end. */
  lemma HoursDecide(rule: Rule, q: Request, start: nat, end: nat)
    requires start < DAY && end < DAY && rule.hours == Hours(start, end)
    ensures rule.Matches(q) <==>
              rule.(hours := []).Matches(q) && (q.time.minute - start) % DAY <= (end - start) % DAY
  {
    hide HoursMatch, Hours, AnyAccepts, WeekdayListed;
    WindowOfHours(start, end, q.time.minute);
    HoursRoundTrip(start, end);
  }

  lemma WindowOfHours(start: nat, end: nat, now: Minute)
    requires start < DAY && end < DAY
    ensures HoursMatch(Hours(start, end), now) <==> (now - start) % DAY <= (end - start) % DAY
  {
    hide ParseHours, Hours;
    HoursRoundTrip(start, end);
    HoursAreCircular(start, end, now);
  }

  predicate HoursMatch(spec: Text, now: nat) {
    match ParseHours(spec)
    case None => false
    case Some((start, end)) => InWindow(start, end, now)
  }

  /** If start is after end the window wraps past midnight. */
  predicate InWindow(start: nat, end: nat, now: nat) {
    if start <= end then start <= now <= end else now >= start || now <= end
  }

  /** A window is the stretch of the clock face walked from its start to its end,
      whether or not it passes midnight. */
  lemma HoursAreCircular(start: nat, end: nat, now: nat)
    requires start < DAY && end < DAY && now < DAY
    ensures InWindow(start, end, now) <==> (now - start) % DAY <= (end - start) % DAY
  {
  }

  // ----- Validation -----

  predicate ValidRule(r: Rule) {
    && (r.hours == [] || ParseHours(r.hours).Some?)
    && (forall i :: 0 <= i < |r.weekdays| ==> WeekdayNum(r.weekdays[i]).Some?)
    && (forall i :: 0 <= i < |r.monthdays| ==> 1 <= r.monthdays[i] <= 31)
    && (forall i :: 0 <= i < |r.modes| ==> KnownMode(r.modes[i]))
  }

  predicate ValidPolicy(p: Policy) {
    && 0 <= p.schema <= SCHEMA_VERSION
    && forall i :: 0 <= i < |p.rules| ==> ValidRule(p.rules[i])
  }

  /** A validated mode list matches a known mode only by naming it, so a rule that
      leaves get out never matches a get. */
  lemma ModeListIsAllowlist(r: Rule, q: Request)
    requires ValidRule(r) && r.modes != [] && KnownMode(q.mode) && r.Matches(q)
    ensures q.mode in r.modes
  {
  }
}
