# Parzival: policy engine, broker, diff and policy install

A Dafny model of the parts of Parzival that decide who may use which secret, and proofs of
what those parts promise. Strings are byte strings (`Bytes.Text`), as the Go code indexes
them. Code that only computes is modelled by functions; loops that update variables, buffers
that are overwritten in place, and objects that change are modelled by methods and classes
proved against a specification, and the lemmas are about that specification.

| file | part of the program |
|---|---|
| `Bytes.dfy` | byte strings, `strings.Cut`, sorted key lists |
| `Glob.dfy`, `GlobLaws.dfy` | `wildcardMatch`: the loop, the language it decides, the meaning of a glob, and what matching a pattern against a pattern's text proves |
| `Policy.dfy` | rules, first-match evaluation, schedules, validation |
| `Coverage.dfy`, `Analysis.dfy` | coverage, intersection, unreachable rules, the analysis report |
| `Leak.dfy` | which rules hand out raw values, and which mode restrictions a label can bypass |
| `Edit.dfy`, `Delta.dfy`, `Representatives.dfy` | building, placing and inserting a grant; the authorization delta; why its probes speak for every request |
| `Diff.dfy` | the longest-common-subsequence diff, its hunks, and patching with them |
| `Install.dfy` | the atomic install, backup, rollback, and the whole edit transaction, on a disk that may fail at every step |
| `Consumer.dfy`, `Authz.dfy`, `Protocol.dfy` | definitions, templates and argument vectors; the authorization file; operation references |
| `Broker.dfy`, `Sessions.dfy`, `AuditLog.dfy` | startup, one connection with its buffers, every interleaving of connections, and the audit log as text |

`dafny verify dfyconfig.toml` checks everything.

## Results that differ from the comments in the code

The model follows the code. Where a comment claims more, lemmas show inputs on which it fails
and say exactly when it holds.

- `wildcardMatch` is documented as "`*` matches any run of characters". The loop compares for
  equality before it looks for a star, so a `*` in the subject is consumed as a literal:
  `a*` does not match `a*b`. A yes is always right (`GlobLaws.AcceptsIsSound`); a no is right
  for every pattern exactly when the subject has no star (`GlobLaws.SubjectExactness`), and on
  every subject exactly when the pattern has none (`GlobLaws.PatternExactness`).
- `patternsCover` is documented as "every value the inner list accepts is accepted by the
  outer list". `?` matches the text `*`, so `a?` is said to cover `a*`. The claim holds against
  every outer list exactly when no inner pattern has a star (`Coverage.ListCoverageExactness`),
  and for an outer pattern against every inner one exactly when the outer has no `?`
  (`GlobLaws.OuterCoverageExactness`). It also misses real coverage: `bao:app/*` is not said to
  cover `bao:app/*#token` (`GlobLaws.MissedCoverage`).
- `ruleCovers` is documented as never letting a time-limited rule cover anything. Every such
  rule covers its own copy (`Coverage.ScheduledRuleCovers`), and covers another exactly when it
  would without the schedules and both carry the same one (`Coverage.ScheduledCoverExactness`).
- `schedulesMayOverlap` is documented as conservative, and is: it does not look at hours. Two
  rules alike but for hours that do not meet are reported to intersect although no request
  matches both (`Coverage.DisjointHoursIntersect`). A reported intersection, or shadow, of valid
  rules is real exactly when their hours meet (`Coverage.IntersectionExactness`,
  `Analysis.ShadowExactness`).
- A pattern's own text is documented as "a representative for a glob". Beside every other
  pattern it is exactly when the pattern is a literal (`Representatives.TextExactness`), and an
  empty delta can be trusted about a rule changing places with every other exactly then
  (`Representatives.SwapExactness`). When deny `a*` and allow `*b` change places no probe shows
  it, and the decision on `ab` flips (`Representatives.AbIsMissed`). On policies of literals and
  literal prefixes alone a pattern's text does stand for every request a rule names
  (`Representatives.ProbesRepresent`, with the exact refs and identities covered in
  `RefProbingExactness` and `IdentityProbingExactness`); a ref no rule names is missed
  (`Representatives.UnnamedRefIsMissed`), as the same comment goes on to say.
- The audit log is documented as one tab-delimited line for each record. The operation and the
  input names are written as the client sent them, before any of them is checked. A log has as
  many lines as records exactly when none of them holds a newline (`AuditLog.LinesExactness`),
  and gives its records back exactly when each is clean (`AuditLog.LogExactness`). Every server
  records an operation with a newline, and no log it is in reads back
  (`AuditLog.BrokenLineIsRecorded`); two requests can leave different records with the same line
  (`AuditLog.DashIsAmbiguous`). Only refused requests leave such records
  (`AuditLog.UncleanIsRefused`), and where none did, the OK lines are just the OK records
  (`AuditLog.EveryOkLineIsReal`, `AuditLog.EveryOkIsRead`).
- `hunkRange` is documented as writing, for a hunk without lines of `a`, the position it was
  inserted after. It writes the start in `b`, which is that position exactly when `b` is one
  line behind there (`Diff.InsertOnlyStart`); with any context the only such hunk is the whole
  diff of an empty `a`, where it writes 1 for 0 (`Diff.InsertOnlyMeansEmpty`).
- `secretsOverlap` gives "a broader pattern containing a narrower one (`bao:app/*` vs
  `bao:app/gitea#*`)" as a case it catches. It does catch that one, and every pair of literal
  prefixes with one trailing star (`GlobLaws.OverlapIsExact`), but for a pattern with any
  wildcard there is a partner it misses (`GlobLaws.OverlapExactness`). `Check` therefore does
  not only over-report: a restricted rule is contained against every other rule exactly under
  the condition of `Leak.ContainmentExactness`.
- Placement compares `Allow` alone, not the two agent contexts. The comparison is one of
  outcomes except between two allow-rules that differ in `deny_agents`
  (`Edit.AllowComparisonExactness`), and there a grant is placed above the rule whose agent
  refusal it then overrules (`Edit.DenyAgentsIsOverruled`).
- `hunks` has a branch that merges a hunk into the previous one. It is never taken: a run of
  changes already absorbs every gap of at most two contexts (`Diff.HunksStayApart`, and the
  `assert false` in `Diff.Hunks`).

## Model

| member | source | states |
|---|---|---|
| Glob.WildcardMatch | internal/policy/policy.go:383-405 | The single-backtrack loop terminates on every pattern and subject, and says yes exactly for the texts the pattern accepts, where a pattern byte equal to the subject byte, a star included, is consumed literally. |
| GlobLaws.AcceptsIsSound | internal/policy/policy.go:380-405 | A yes is always right: the subject matches the recursive meaning of the glob. |
| GlobLaws.AcceptsIsExact | internal/policy/policy.go:380-405 | For a subject without a star the loop answers yes exactly when the glob's meaning holds. |
| GlobLaws.PatternExactness | internal/policy/policy.go:387-392 | The loop decides a pattern's meaning on every subject if and only if the pattern has no star. |
| GlobLaws.SubjectExactness | internal/policy/policy.go:387-392 | The loop decides every pattern's meaning on a subject if and only if the subject has no star. |
| GlobLaws.AcceptsItself | internal/policy/policy.go:383-405 | Every pattern accepts its own text, whatever wildcards it holds. |
| GlobLaws.AcceptedTextIsIncluded | internal/policy/analyze.go:342-367 | An outer pattern that matches an inner pattern's text accepts every star-free text the inner accepts, unless a `?` outside faces a star inside. |
| GlobLaws.OuterCoverageExactness | internal/policy/analyze.go:342-367 | That inference is right for an outer pattern and every inner pattern if and only if the outer has no `?`. |
| GlobLaws.InnerCoverageExactness | internal/policy/analyze.go:342-367 | It is right for an inner pattern and every outer pattern if and only if the inner has no star. |
| GlobLaws.CoverageExactness | internal/policy/analyze.go:342-367 | Text matching and inclusion agree for an outer pattern and every inner pattern if and only if the outer is a literal. |
| GlobLaws.MissedCoverage | internal/policy/analyze.go:350-353 | A literal prefix with a star includes, but does not match as text, any pattern that continues after a star at the same place. |
| GlobLaws.PrefixCoverageIsExact | internal/policy/analyze.go:342-367 | Between literals and literal prefixes with one trailing star, text matching is inclusion, both ways. |
| GlobLaws.TextOverlapIsReal | internal/policy/check.go:112-124 | Two patterns of which one matches the other's text have a common star-free text. |
| GlobLaws.OverlapIsExact | internal/policy/check.go:103-124 | With one literal, or two literal prefixes, the overlap test says yes exactly when a common text exists. |
| GlobLaws.OverlapExactness | internal/policy/check.go:103-124 | The overlap test is right about a pattern and every partner if and only if the pattern is a literal. |
| Policy.EvaluateIsFirstMatch | internal/policy/policy.go:167-205 | The first matching rule decides, with the outcome for the request's agent context; `Evaluate` and `decide`, two separate loops, always agree. |
| Policy.FirstMatchDecides | internal/policy/policy.go:167-179 | The deciding rule is the only index that matches with nothing matching above it. |
| Policy.AgentTwin | internal/policy/policy.go:82-87 | An agent request is decided by the same rule as its non-agent twin and allowed only if the twin is; they differ exactly when that rule is an allow-rule with deny_agents. |
| Policy.HoursAreCircular | internal/policy/policy.go:446-474 | An hours window holds the minutes met walking the clock face from start to end, across midnight or not. |
| Policy.HoursRoundTrip | internal/policy/policy.go:460-490 | Every window of the day written HH:MM-HH:MM is read back as those two minutes. |
| Policy.HoursDecide | internal/policy/policy.go:446-474 | A rule for one HH:MM-HH:MM window matches what it would match at any hour, within the stretch of the clock from its start to its end. |
| Policy.WeekdayExactness | internal/policy/policy.go:417-435 | A name is read as a day if and only if, trimmed and lowered, it is the day's full name, its short name, or one of four other spellings. |
| Policy.SpellingBegins | internal/policy/policy.go:417-435 | Every spelling read as a day begins with the first three letters of its name. |
| Policy.NamedDayDecides | internal/policy/policy.go:181-205 | A rule for one day, in any spelling, case and surrounding space, matches and allows what it would on any day, on that day and no other. |
| Policy.ModeListIsAllowlist | internal/policy/policy.go:276-311 | In a validated policy a rule with a mode list matches a known mode only by naming it. |
| Coverage.PatternsCoverIsInclusion | internal/policy/analyze.go:354-367 | When `patternsCover` says yes and no `?` outside faces a star inside, every star-free string the inner list admits the outer list admits, empty lists included. |
| Coverage.ListCoverageExactness | internal/policy/analyze.go:342-367 | The answers of `patternsCover` about an inner list are right against every outer list if and only if no inner pattern has a star. |
| Coverage.CoveringRuleMatches | internal/policy/analyze.go:335-340 | Where no `?` outside faces a star inside, a covering rule matches every star-free request the covered rule matches, schedule included. |
| Coverage.ScheduledRuleCovers | internal/policy/analyze.go:325-340 | Every rule, scheduled or not, covers its own copy. |
| Coverage.ScheduledCoverExactness | internal/policy/analyze.go:325-385 | A scheduled rule covers another if and only if it would without the schedules and both carry the same one. |
| Coverage.CoveredBy | internal/policy/analyze.go:316-323 | The rule found is the first earlier one that covers, and none is missed. |
| Coverage.CoveredRuleNeverDecides | internal/policy/analyze.go:316-340 | Where no `?` of the covering rule faces a star of the covered one, a rule covered by an earlier one decides no star-free request, with or without an agent. |
| Coverage.DeletionKeepsDecision | internal/policy/policy.go:167-179 | Deleting a rule keeps the decision and, up to the index shift, the deciding rule of every request that rule does not decide. |
| Coverage.CoveredRuleIsDead | internal/policy/analyze.go:165-195 | Under the same condition a covered rule can be deleted without changing any star-free decision or its deciding rule. |
| Coverage.SameOutcomesCommute | internal/policy/analyze.go:95-107 | Neighbours whose outcomes agree in both contexts can change places without changing any decision. |
| Coverage.SecretsOverlapIsExact | internal/policy/check.go:112-124 | On lists of literals and literal prefixes the overlap test says yes exactly when some star-free ref is admitted by both. |
| Coverage.OverlapHasCommonText | internal/policy/check.go:112-124 | A yes always comes with a star-free string both lists admit under the code's own matcher, on any patterns. |
| Coverage.DisjointSchedules | internal/policy/analyze.go:411-455 | Two rules whose schedules both hold at some instant are never said to have disjoint schedules. |
| Coverage.IntersectionIsReal | internal/policy/analyze.go:399-404 | At every instant in both schedules two rules said to intersect meet in a star-free request, in a known mode if they are valid, and if their outcomes differ in any context their order decides it. |
| Coverage.ScheduleExactness | internal/policy/analyze.go:406-434 | Two valid schedules share an instant if and only if `schedulesMayOverlap` says they may and their hours windows meet. |
| Coverage.IntersectionExactness | internal/policy/analyze.go:388-404 | A reported intersection of valid rules, on any patterns, is real if and only if their hours meet, and then in a request of a known mode. |
| Coverage.DisjointHoursIntersect | internal/policy/analyze.go:406-419 | Two copies of any valid rule whose hours are apart are reported to intersect, and no request matches both. |
| Coverage.DisjointRulesCommute | internal/policy/analyze.go:399-419 | Rules on decidable patterns said not to intersect share no star-free request and can change places. |
| Analysis.Analyze | internal/policy/analyze.go:165-282 | The findings are exactly: each covered rule as unreachable or redundant by whether some context's outcome differs from its first coverer's; each intersecting, non-covered pair with differing outcomes; each useless or identity-scoped deny_agents; and the leak findings. Each comes once, by stage, rule and other rule. |
| Analysis.LeakFindings | internal/policy/analyze.go:254-282 | One finding for each open rule, one for each bypass, and one if any label reaches get; each once, in that order and by rule. |
| Analysis.AnalysisIsUnique | internal/policy/analyze.go:165-282 | Two reports in that order with the same findings are the same report, so the contract of `Analyze` fixes it whole. |
| Analysis.ReportedRuleIsDead | internal/policy/analyze.go:165-195 | In a policy where no `?` of one rule faces a star of another, a rule reported unreachable or redundant decides no star-free request and its deletion changes none; unreachable means exactly that its outcome differs from the covering rule's in some context. |
| Analysis.UnreportedNeighboursCommute | internal/policy/analyze.go:165-228 | On decidable patterns, neighbours about which nothing is reported can change places: no order that matters goes unreported. |
| Analysis.ShadowIsReal | internal/policy/analyze.go:196-228 | At every instant in both schedules a reported shadow comes with a star-free request, in a known mode if the policy is valid, that both rules match and whose decision depends on their order. |
| Analysis.ShadowExactness | internal/policy/analyze.go:196-228 | In a valid policy a reported shadow is real, some star-free request being decided by the order, if and only if the two rules' hours meet, and then some request of a known mode is. |
| Analysis.ReportedFlagIsIdle | internal/policy/analyze.go:229-252 | A deny_agents reported as without effect can be cleared without changing any decision or deciding rule, with or without an agent. |
| Analysis.BlockingKinds | internal/policy/analyze.go:165-282 | A finding blocks if and only if it is an unreachable rule or a bypassed restriction. |
| Analysis.NoBlockingFinding | internal/policy/analyze.go:133-142 | With no error finding every covered rule repeats its coverer, and every mode restriction on decidable refs holds whatever label the caller asserts. |
| Leak.Check | internal/policy/check.go:53-91 | The report lists each allow-rule that permits get once and in order, and, by restricted and then by open rule, a weakened entry once for exactly each pair in which an open rule reaches a restricted ref for a label the restriction does not cover. |
| Leak.OpenEntryShows | internal/policy/check.go:53-91 | An open entry shows its rule's own refs and labels, and is conditional exactly when the rule has a schedule. |
| Leak.WeakenedEntryShows | internal/policy/check.go:53-91 | A weakened entry shows the restricted rule's refs and labels and the open rule's labels. |
| Leak.AllowedGetIsListed | internal/policy/check.go:53-101 | Every get that is allowed is decided by a rule in `GetOpen`, so an empty `GetOpen` means no get is ever allowed. |
| Leak.CleanReportContains | internal/policy/check.go:35-91 | With no weakened entry, on decidable refs and labels where no `?` faces a star, whoever gets the raw value of a restricted ref carries a label the restriction admits. |
| Leak.ContainmentExactness | internal/policy/check.go:43-52 | A single-pattern restriction is contained against every other rule if and only if its label pattern is only stars, or its secret is a literal and its label has no `?`. |
| Leak.AgentAssertableGetLabels | internal/policy/analyze.go:291-310 | The labels are exactly those some open rule names, with `*` for an open rule without identities, each once and sorted. |
| Leak.AllowedGetMatchesLabel | internal/policy/analyze.go:284-310 | A star-free label under which a get is allowed matches one of the listed labels. |
| Edit.BuildGrantRule | internal/policy/edit.go:78-114 | A built grant is a valid allow-rule without deny_agents that names its secrets, identities and modes. |
| Edit.GrantIsWhatWasAsked | internal/policy/edit.go:72-114 | A grant is built if and only if secrets and identities are named and every mode, weekday, month day and hour is valid; it matches exactly the refs, identities, modes and times asked for, get only when named. |
| Edit.InsertionStaysValid | internal/policy/edit.go:280-296 | Inserting a valid rule into a valid policy gives a valid policy that declares its schema. |
| Edit.GrantPermitsGetOnlyWhenNamed | internal/policy/edit.go:47-70 | A grant permits get if and only if the raw-get warning is shown, and that is when the request named get: an empty mode list never means get. |
| Edit.InsertionDecides | internal/policy/edit.go:280-296 | After an insertion a request is decided by the new rule exactly when it matches and nothing above does; otherwise by its old rule, shifted, with the old decision. |
| Edit.GrantOnlyGrants | internal/policy/edit.go:280-296 | At any legal index a grant revokes nothing; every newly allowed request matches it and is decided by it; every other request keeps decision and rule. |
| Edit.AnalyzeRuleInsertion | internal/policy/edit.go:193-257 | [Low, High] is exactly the set of positions below every rule the proposal would silence and above every rule that would silence it; Index is the least; a partial overlap is an error exactly when one exists, no room exactly when no position exists; the index lists and CoveredBy are exact. |
| Edit.UnsafePositionKills | internal/policy/edit.go:166-192 | Where no `?` faces a star between the proposal and a rule, at every position outside the bounds the proposal decides no star-free request, or some rule it covers no longer does. |
| Edit.SafePositionDisturbsNothingElse | internal/policy/edit.go:166-192 | Inside the bounds, on decidable patterns, a request decided by a rule that neither silences nor partly overlaps the proposal, nor differs from it only in deny_agents, keeps its decision. |
| Edit.AllowComparisonExactness | internal/policy/edit.go:197-205 | Comparing Allow is comparing outcomes in both contexts if and only if the rules are not allow-rules that differ in deny_agents. |
| Edit.DenyAgentsIsOverruled | internal/policy/edit.go:193-257 | A grant equal to a rule but for deny_agents is safely placed above it and allows the agent requests that rule refused. |
| Delta.DiffAuthorization | internal/policy/delta.go:173-196 | The delta is the compared changes of the probes, in order, with the candidate's scheduled rules. |
| Delta.ChangesAreExact | internal/policy/delta.go:173-196 | A change is listed if and only if its probe was given, both decisions and both deciding rules are the real ones, and the decisions differ. |
| Delta.ChangedRules | internal/policy/delta.go:173-229 | A listed change names the first match in the old policy and in the new one, with their outcomes, and the two decisions differ. |
| Delta.UnflaggedIsTimeless | internal/policy/delta.go:173-196 | If no rule is flagged as time-conditional, every probe is decided alike at all instants. |
| Delta.Unexpected | internal/policy/delta.go:133-168 | The list is the changes, in order and each as often as listed, that are neither requested nor the agent twin of a requested probe that moved the same way. |
| Delta.NothingUnexpected | internal/policy/delta.go:133-168 | If nothing is unexpected, a probe that changed was requested, or is the agent twin of a requested probe and both moved from and to the same decision. |
| Delta.GrantDelta | internal/policy/delta.go:173-196 | The delta of inserting a built grant holds only new allows, at requests the grant matches and decides. |
| Delta.ProbeSet | internal/policy/delta.go:244-309 | Each probe once: every named ref, or the placeholder when none is named, with every named identity and the empty label and every mode, the agent context exactly when some policy sets deny_agents, and the caller's own probes. |
| Delta.TwinsLeftOutAgree | internal/policy/delta.go:244-309 | Where no rule sets deny_agents, an agent probe has the decision and deciding rule of its twin, so leaving it out loses nothing. |
| Delta.RuleProbes | internal/policy/delta.go:322-345 | A rule's probes are exactly its refs, identities and modes crossed, with placeholders for empty lists. |
| Delta.RuleMatchesItsProbes | internal/policy/delta.go:311-345 | A rule matches each of its own probes at any instant in its schedule, whatever wildcards they hold. |
| Representatives.LongestIsAlike | internal/policy/delta.go:18-27 | Among literals and literal prefixes, the longest pattern that accepts a star-free string is, as text, accepted by just the patterns that accept that string. |
| Representatives.RefProbingExactness | internal/policy/delta.go:18-35 | A ref has a representative in the probe set if and only if some rule names it, or some probed ref, like it, is named by none. |
| Representatives.IdentityProbingExactness | internal/policy/delta.go:230-243 | The same for identities; since the empty label is always probed, every identity has one unless rules accept the empty label. |
| Representatives.ProbesRepresent | internal/policy/delta.go:230-309 | Every covered request, agent or not, has a probe in the set that each policy decides alike and by the same rule. |
| Representatives.EmptyDeltaMeansNoChange | internal/policy/delta.go:173-196 | If the delta over the probe set is empty, no covered request changes decision at that instant. |
| Representatives.InstallMovesOnlyWhatWasRequested | cmd/parzival/grant.go:295-332 | After an install, the first one included, that moved only what was requested, a covered request that changed decision is represented by a requested probe or the agent twin of one. |
| Representatives.UnnamedRefIsMissed | internal/policy/delta.go:28-35 | Adding a rule for every ref below a rule for one ref changes every request for another ref and no probe. |
| Representatives.TextExactness | internal/policy/delta.go:18-27 | Beside every other pattern, what either accepts is stood for by the text of one of the two if and only if the pattern is a literal. |
| Representatives.SharedStandIn | internal/policy/delta.go:18-27 | A string two patterns share has a stand-in among their texts if and only if one accepts the text of the other. |
| Representatives.SwapExactness | internal/policy/delta.go:173-309 | That an empty delta means no star-free ref changed when a deny rule and any allow rule change places holds if and only if the deny rule's pattern is a literal. |
| Representatives.AbIsMissed | internal/policy/delta.go:173-309 | With deny `a*` above allow `*b` and the other way round every probe keeps its decision and `ab` does not. |
| Diff.LcsTable | cmd/parzival/diff.go:74-88 | The table, filled in place backwards, holds at every cell the recurrence's value for the rest of both texts. |
| Diff.LcsIsUpperBound | cmd/parzival/diff.go:66-88 | No common subsequence of the two rests is longer than the table's entry. |
| Diff.DiffOps | cmd/parzival/diff.go:74-113 | The script's non-inserts spell a, its non-deletes spell b, both numbered consecutively from 1, and it keeps as many lines as the table's first cell. |
| Diff.ScriptIsOptimal | cmd/parzival/diff.go:66-113 | No common subsequence of a and b is longer than the lines the script keeps, and no other script keeps more or is shorter. |
| Diff.ChangeMeansDifferent | cmd/parzival/diff.go:115-122 | The optimal script holds a change if and only if the texts differ. |
| Diff.Hunks | cmd/parzival/diff.go:128-166 | Each hunk reaches exactly the context around its first and last change, hunks are strictly apart, every change is in one, and the merge branch is unreachable. |
| Diff.HunksStayApart | cmd/parzival/diff.go:136-163 | A change after a hunk is more than two contexts beyond the hunk's last change, so the hunks' contexts never meet. |
| Diff.HunkRange | cmd/parzival/diff.go:168-194 | The lengths are the hunk's lines on each side; the start is one after the lines before the hunk on that side, or on the other side where it has none. |
| Diff.InsertOnlyStart | cmd/parzival/diff.go:184-192 | For a hunk without lines of a the printed start is the position it was inserted after if and only if b is one line behind a there. |
| Diff.InsertOnlyMeansEmpty | cmd/parzival/diff.go:184-192 | With any context such a hunk is the whole script, a is empty, and 1 is printed. |
| Diff.PatchGivesOther | cmd/parzival/diff.go:24-48 | Applying the hunks to a by their printed headers and lines alone, checking every context and deleted line against a, succeeds and gives b. |
| Diff.UnifiedDiff | cmd/parzival/diff.go:24-48 | The diff is empty exactly when a equals b; patching a with it, by its printed headers and lines, gives b. It prints a shortest script: each hunk has just `context` unchanged lines before its first change and after its last, or as many as there are at the top or bottom, no longer unchanged run than two contexts between, and starts one after the lines before it; hunks are apart and hold every change. The changed lines number |a| + |b| minus twice any longest common subsequence. |
| Diff.ChangesPrinted | cmd/parzival/diff.go:24-48 | From any line on, the hunks print every inserted and deleted line of the script, once. |
| Diff.HunkShowsContext | cmd/parzival/diff.go:124-166 | A hunk's printed lines frame its changes with the context asked for. |
| Install.Disk.WriteAtomic | internal/policy/write.go:61-106 | At every moment, whatever fails, the path holds what it held or the whole flushed 0600 candidate and no other file changes; success leaves exactly the candidate, failure at most one stray temporary file. |
| Install.Disk.Backup | internal/policy/write.go:119-160 | A backup is a flushed copy under the first of 60 names not in use, with the source's permissions, or 0600 if they could not be read; no existing file changes at any moment; a missing source is not an error. |
| Install.Disk.Restore | internal/policy/write.go:169-179 | Success leaves the rendering of what the backup parses to; a backup that does not parse is never installed; if nothing fails, restoring works exactly when the backup parses. |
| Install.Disk.VerifyInstalled | internal/policy/write.go:231-260 | A yes means the file loads, renders as expected and has mode 0600; if nothing fails a no means it does not. |
| Install.Disk.WriteCandidate | internal/policy/write.go:189-221 | The candidate goes to a new file of its own, whole and 0600, only if its rendering parses; failure leaves at most that file. |
| Install.Disk.ReviewCandidate | cmd/parzival/grant.go:242-332 | The review passes only a candidate that loads, has no error finding and moves only requested decisions; it never changes the live path. |
| Install.Judge | cmd/parzival/grant.go:262-332 | A candidate that loads is refused for its findings exactly when one is an error, then for its changes exactly when a probed decision moves that was not asked for. |
| Install.UnexpectedExactness | cmd/parzival/grant.go:317-332 | The computed list of unexpected changes is empty if and only if every probed decision that moves was requested or is the twin of a requested probe that moves alike. |
| Install.Disk.RunTransaction | cmd/parzival/grant.go:242-427 | Without an acceptable candidate and the operator's agreement the live path never changes; with both, at every moment it holds the old file, the whole candidate or the whole restored policy, a flushed backup exists once it was replaced, and other files never change. What is then in force moves only requested decisions. If no operation fails: it installs exactly when nobody meddles or what is found is as good as the candidate; otherwise, if there was an old file that parses, it rolls back and the live path holds that policy's rendering; a rollback fails only for an old file that does not parse. |
| Install.StopExactness | cmd/parzival/grant.go:242-386 | If no operation fails, each way of stopping short of the install comes about exactly for its own reason, the earlier taking precedence. |
| Install.OwnerOnly | internal/policy/write.go:28-32 | The installed mode lets the owner read and write, and group and others nothing. |
| Install.CrashLeavesAPolicy | internal/policy/write.go:3-16 | For a faithful codec, a crash at any moment of any transaction leaves at the live path what was there before or what another process put there, as a crash leaves such a file, or a whole owner-only file that loads as the reviewed or the old policy. |
| Install.InstalledIsReviewed | internal/policy/write.go:223-260 | A verified install loads as exactly the policy that was reviewed. |
| Install.LoadedCandidateSurvives | cmd/parzival/grant.go:245-254 | A candidate that came from a file reads back from the candidate file as itself. |
| Install.RestoredIsOld | cmd/parzival/grant.go:400-416 | After a successful rollback the live file loads as the policy it held before. |
| Install.InstalledMovesOnlyRequested | cmd/parzival/grant.go:295-332 | After an installed outcome the policy the live file loads as changes a probed decision only if it was requested, or for the agent twin of a requested probe that changed alike. |
| Consumer.PrintAfterSplit | internal/consumer/consumer.go:476-494 | Printing the literals and holes of a template gives the template. |
| Consumer.SplitAfterPrint | internal/consumer/consumer.go:476-494 | Splitting what readable pieces print gives those pieces. |
| Consumer.Placeholders | internal/consumer/consumer.go:476-494 | The names are exactly the template's holes, in order; none exactly when a placeholder is not closed or its name is not a valid input name. |
| Consumer.Substitute | internal/consumer/consumer.go:500-520 | The result is the template's pieces with each value verbatim, never rescanned; it fails exactly when a placeholder is not closed or has no value, so the two scanners agree. |
| Consumer.ValidateOperation | internal/consumer/consumer.go:297-358 | An operation is accepted exactly when it is valid, and its inputs' compiled patterns are stored back. |
| Consumer.ValidateDefinition | internal/consumer/consumer.go:243-278 | A definition is accepted exactly when its header and every operation are valid. |
| Consumer.ExecutableExactness | internal/consumer/consumer.go:280-295 | An executable is accepted if and only if it is the root, or a slash and non-empty components other than a dot or two dots, joined by single slashes. |
| Consumer.LoadAll | internal/consumer/consumer.go:184-215 | Loading succeeds exactly when every file is valid and no two declare the same name. |
| Consumer.LoadedIsExact | internal/consumer/consumer.go:184-215 | A loaded definition is that of the one file declaring its name, validated and compiled. |
| Consumer.BuildArgv | internal/consumer/consumer.go:394-440 | The vector, or the refused input: unknown inputs first, then the first declared one in sorted order that is missing or not accepted. |
| Consumer.AcceptedExactness | internal/consumer/consumer.go:394-472 | Inputs are accepted if and only if each one given is declared, within its length, matching its pattern, free of control characters and without an undue dash, and each one left out is optional. |
| Consumer.VectorIsHarmless | internal/consumer/consumer.go:394-472 | Every value a vector is built from is declared and is such a value. |
| Consumer.ValidatedArgv | internal/consumer/consumer.go:394-440 | For a validated definition a request gets a vector exactly when the operation is declared and its inputs accepted, and it is the executable and one element for each template. |
| Consumer.NoSmuggledOption | internal/consumer/consumer.go:443-472 | A filled template that starts with a dash owes it to the template's own text or to an input allowed a leading dash. |
| Protocol.SplitAfterJoin | internal/broker/protocol.go:163-174 | Splitting "consumer.operation" undoes joining two valid names. |
| Protocol.JoinAfterSplit | internal/broker/protocol.go:163-174 | Joining undoes splitting, and both halves are valid names. |
| Authz.Parse | internal/broker/authz.go:53-94 | A file is accepted exactly when every entry is well formed, no uid repeats and no operation repeats within an entry. |
| Authz.DecideIsGrant | internal/broker/authz.go:142-155 | In an accepted file a peer may invoke an operation if and only if some entry grants it. |
| Authz.DecideIgnoresOrder | internal/broker/authz.go:142-155 | Two accepted files with the same entries in any order decide alike. |
| Authz.RepeatedUidDependsOnOrder | internal/broker/authz.go:53-94 | With a repeated uid, which `Parse` refuses, the order of entries would decide. |
| Authz.AuthorizedResolves | internal/broker/authz.go:113-133 | With the file validated against the definitions, every authorized operation string splits and resolves. |
| Broker.CheckResponseConfigKeys | internal/broker/response_config.go:68-87 | The configuration passes exactly when its keys are those the validator wants. |
| Broker.ValidatorForExactness | internal/broker/response_config.go:45-66 | A response configuration is accepted if and only if a configured validator reads exactly its keys and accepts its values, or there is none and a plain validator exists; and it is that validator, with that configuration, that is applied. |
| Broker.ClassifyExactness | internal/broker/session.go:205-234 | Timeout, failure, truncation and a refused result each have their own code, the earlier taking precedence; otherwise OK carries what the validator returns. |
| Broker.NewServer | internal/broker/broker.go:170-260 | A server starts if and only if every file, executable, profile and validator and the authorization file verify. It is then ready: authorized operations resolve, profiles exist with permitted variables, validators exist, templates fill. And trusted: each definition's file and executable, each profile's file and the authorization file satisfied the trust check. |
| Broker.VerifiedExactness | internal/broker/broker.go:181-246 | The trust root verifies if and only if there is a definition, the named paths are trusted, validators exist, profiles load and inject no reserved variable, and the authorization file is valid, trusted and names declared operations. |
| Broker.VerifiedIsReady | internal/broker/broker.go:181-246 | The verified trust root implies everything the request path relies on. |
| Broker.Server.FetchSecrets | internal/broker/broker.go:371-392 | In the order visited the buffers hold exactly what the stores returned, and are all the non-empty buffers made; after any failure every buffer made is all zero. |
| Broker.RenderingIgnoresOrder | internal/broker/broker.go:371-392 | The fetch succeeds exactly when every store answers, and the template is rendered with each name's own value in whatever order the map is visited. |
| Broker.FetchAsksInOrder | internal/broker/broker.go:371-392 | The stores are asked for each name's own reference in the order visited, up to the first that does not answer. |
| Broker.ZeroAll | internal/broker/broker.go:395-399 | Every byte of every buffer is zero afterwards. |
| Broker.FinishExactness | internal/broker/session.go:186-203 | Steps end a request as `finish` does if and only if they are one attempt at a record of this peer, operation, input names, decision and code, then one response: OK only if decided and durably recorded, unavailable for an OK without a record, and any other answer as decided. |
| Broker.RecordHoldsNames | internal/broker/session.go:244-256 | A record holds the peer, the operation, and the names of the inputs, each once and sorted, and no value. |
| Broker.Server.HandleConn | internal/broker/session.go:23-176 | On every path the handler does exactly the steps of the session specification, and every non-empty buffer allocated anywhere on the way is all zero when it returns. |
| Sessions.ReadySession | internal/broker/session.go:47-107 | On a ready server a readable connection is admitted or refused at once; no authorized operation is unresolved and none lacks its profile. |
| Sessions.OneAuditThenOneResponse | internal/broker/session.go:23-203 | After a readable frame there is exactly one audit attempt and then one response attempt, last of all; without one, nothing. |
| Sessions.CredentialNeedsAuthorization | internal/broker/session.go:80-176 | A store is asked, and a consumer run, only for an authorized, resolved operation whose inputs were accepted, and what runs is the vector built from the definition. |
| Sessions.RunIsTrusted | internal/broker/broker.go:181-246 | Whatever runs in any session of a started server is an executable its startup found trusted. |
| Sessions.ProtocolIsChecked | internal/broker/session.go:56-78 | The credential is touched, and OK answered, only for a request of protocol 1 naming two valid names joined by a dot. |
| Sessions.AnswerExactness | internal/broker/session.go:47-107 | A readable connection is answered unsupported exactly for a positive protocol other than 1; malformed exactly when nothing decoded, the protocol is not positive or the operation is not two names joined; denied exactly when no entry grants it; invalid input exactly when granted and not admitted. |
| Sessions.RunAnswer | internal/broker/session.go:109-234 | An admitted request is answered as its run ended, timeout before failure before size before the validator, and unavailable if nothing ran or an OK could not be recorded. |
| Sessions.CleanedBeforeResponse | internal/broker/session.go:128-176 | A runtime directory that was created is cleaned before the audit record and the response, and the consumer runs only after the credential was written into it. |
| Sessions.OkIsAudited | internal/broker/session.go:186-203 | OK is sent only right after a durable record of this decision, in a session in which the consumer ran. |
| Sessions.OkExactness | internal/broker/session.go:23-234 | A readable connection is answered OK if and only if it is admitted, every store answers, the credential is rendered and delivered, the run yields output its validator accepts and the record is durable; it then gets the canonical output. |
| Sessions.EveryOkIsAudited | internal/broker/broker.go:300-332 | In every interleaving of any number of connections, with audit writes failing at will, each OK response has its own durable record, written earlier by its own connection, with decision OK. |
| AuditLog.LogExactness | internal/broker/audit.go:45-84 | The text of a log, read a line a record and seven fields a line, gives back its records if and only if every record is clean: no tab or newline in the operation or a name, no comma in a name, and neither the operation nor the only name a dash. |
| AuditLog.LogIsRead | internal/broker/audit.go:52-66 | A log of clean records is read back record by record, uid, decision, code and names included. |
| AuditLog.AdmittedRecordIsClean | internal/broker/session.go:47-105 | On a ready server whatever an admitted client sent leaves a clean record. |
| AuditLog.UncleanIsRefused | internal/broker/session.go:47-105 | A record that would not read back belongs to a request that was refused. |
| AuditLog.LinesExactness | internal/broker/audit.go:37-66 | A log has at least a line a record, and exactly one if and only if no operation or input name holds a newline. |
| AuditLog.BrokenLineIsRecorded | internal/broker/session.go:47-78 | Any server answers an operation with a newline as malformed and records it as sent; the record takes more than a line, and no log it is in reads back. |
| AuditLog.DashIsAmbiguous | internal/broker/audit.go:79-84 | A request whose operation is a dash and one without operation leave different records with the same line, on any server. |
| AuditLog.OkRecordIsAdmitted | internal/broker/session.go:186-203 | A record of decision OK is made only for an admitted connection, and holds its peer, operation and input names. |
| AuditLog.EveryOkLineIsReal | internal/broker/audit.go:52-78 | In every interleaving, if the log is clean, an OK line read from its text is the record of a connection that was admitted. |
| AuditLog.EveryOkIsRead | internal/broker/audit.go:52-78 | In every interleaving, if the log is clean, each OK response has its line in the text. |
| Sessions.DeniedLooksTheSame | internal/broker/session.go:47-85 | A peer that is not granted the operation it names gets the same record and response from any two servers with the same authorization file, whatever else differs. |
| Sessions.ValidatorIsThere | internal/broker/session.go:210-234 | On a ready server the validator of an admitted request exists, so `classify` never takes the validator-error branch. |

## Left out

- JSON decoding and encoding, `regexp` and `text/template`: a policy codec is any pair of functions, faithful (what parses survives rendering and parsing again) only where a row's proof says so; an input pattern and a profile template are uninterpreted functions.
- Sockets, peer credentials, frames, process launch, stores, RAM disks and systemd: each is an answer the environment gives, one per step.
- `trustroot.go`: whether a path is trusted is an abstract predicate, as the code's own seam makes it.
- `Authorize` and its audit line, `DeniedError`, `NearMisses`, `ParseRef`, flag parsing, prompts, what-if output and every message text: presentation, or too easy to add anything. A finding is modelled by kind, severity and rule indices, without its words.
- Wall-clock time: an instant is a weekday, a month day and a minute of the day. Weekday names and hours are trimmed and lowered for ASCII only; a number beyond the machine integer is refused by the ranges that follow.
- Timeouts, cancellation and diagnostic log lines of a connection: a timeout is one of the ways a launch ends. Times and durations are opaque fields of the audit log.
- AuditLog.EveryOkLineIsReal: the text is that of the durable records; what a failed write may leave in the file is not modelled, nor what a newline in an operation makes a line-by-line reader see beyond that the log does not read back.
- Map iteration order: `Conn.order` is any order that visits each name once; other maps are visited in any order or sorted, as in the code.
- The two file names above a rendered diff, and how a hunk's lines are prefixed.
- Broker.Server.FetchSecrets: keeps the fetched buffers in the order visited rather than in a map from name to buffer; the names are paired with them again for the template, which is rendered from their contents as a value.
- Broker.Server.HandleConn: serves one connection on its own; concurrency is the interleaving of sessions in `Sessions`, where connections share no state but the log.
- Install.Disk.Create: the process umask is not modelled, so a backup made with the source's mode keeps it.
- Representatives.ProbesRepresent: is stated for literals and literal prefixes; `Representatives.TextExactness` says what other patterns lose.
- Install.Disk.WriteAtomic: temporary names are drawn by the environment, never equal to the live path; creation gives up where the library would draw again. A rename is taken to be durable in the order it happens, as write.go assumes.
- Install.Disk.RunTransaction: another process may replace or remove the live file once, between the install and its verification; interference at other moments is not modelled. The diff and the what-if table are printed without effect on the outcome and are left out of it.
- Coverage.SecretsOverlapIsExact: decides lists of literals and single trailing stars; for other patterns only the yes direction holds, and `GlobLaws.OverlapExactness` says that no wildcard pattern is decided against every partner.
- Edit.SafePositionDisturbsNothingElse: is stated for star-free requests and decidable patterns, where an intersection cannot be missed.
