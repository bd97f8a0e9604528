/**
 Installing a policy: what is on the disk at every step, whatever fails and wherever the
 machine stops (internal/policy/write.go, and runTransaction in cmd/parzival/grant.go).
 */
module Install {
  import opened Bytes
  import opened Policy
  import opened Analysis
  import opened Delta

  // ----- The disk -----

  type Path = Text

  /** synced: the content has been flushed and survives a crash. */
  datatype File = File(content: Text, mode: nat, synced: bool)

  type Files = map<Path, File>

  /** Owner read and write, 0600. */
  const FILE_MODE: nat := 384

  const BACKUP_ATTEMPTS: nat := 60

  function Lookup(files: Files, path: Path): Option<File> { if path in files then Some(files[path]) else None }

  /** What the environment decides, step by step: which file operations fail, how much of
      a failing write lands, which temporary names are drawn, and the clock's stamps for
      the backup names. */
  datatype Env = Env(fails: nat -> bool, kept: nat -> nat, temp: nat -> Path, stamp: nat -> Text)

  function BackupName(env: Env, path: Path, attempt: nat): Path { path + ".bak." + env.stamp(attempt) }

  /** The policy encoder and decoder. */
  datatype Codec = Codec(marshal: Policy -> Text, parse: Text -> Option<Policy>)

  function Marshal(codec: Codec, p: Policy): Text { codec.marshal(p) }

  function Parse(codec: Codec, data: Text): Option<Policy> { codec.parse(data) }

  /** What was parsed survives rendering and parsing again. */
  ghost predicate Faithful(codec: Codec) {
    forall data: Text :: Parse(codec, data).Some? ==>
      Parse(codec, Marshal(codec, Parse(codec, data).value)) == Parse(codec, data)
  }

  /** The complete file an install of p leaves. */
  function Rendered(codec: Codec, p: Policy): File { File(Marshal(codec, p), FILE_MODE, true) }

  /** What a run begun on files before promises: the path holds one of the allowed files,
      and every other file that was there is as it was. */
  datatype Promise = Promise(before: Files, path: Path, allowed: set<Option<File>>)

  ghost predicate Keeps(now: Files, w: Promise) { Lookup(now, w.path) in w.allowed && Others(w.before, now, w.path) }

  /** Every file that was there, but for the one at the path, is as it was. */
  ghost predicate Others(before: Files, now: Files, path: Path) {
    forall p :: p in before && p != path ==> p in now && now[p] == before[p]
  }

  /** Every moment from the n-th on keeps it. */
  ghost predicate KeepsFrom(history: seq<Files>, n: nat, w: Promise) {
    n <= |history| && forall i :: n <= i < |history| ==> Keeps(history[i], w)
  }

  /** The path stays as it was. */
  function Same(before: Files, path: Path): Promise { Promise(before, path, {Lookup(before, path)}) }

  /** The path holds what it held, or the file. */
  function Either(before: Files, path: Path, file: File): Promise {
    Promise(before, path, {Lookup(before, path), Some(file)})
  }

  /** w1 is kept only by moments that keep w. */
  ghost predicate Within(w1: Promise, w: Promise) {
    w1.path == w.path && w1.allowed <= w.allowed && Others(w.before, w1.before, w.path)
  }

  lemma KeepsStart(history: seq<Files>, before: Files, path: Path)
    ensures Keeps(before, Same(before, path)) && KeepsFrom(history, |history|, Same(before, path))
  {
  }

  lemma KeepsStep(history: seq<Files>, n: nat, w: Promise, now: Files)
    requires KeepsFrom(history, n, w) && Keeps(now, w)
    ensures KeepsFrom(history + [now], n, w)
  {
  }

  /** A further stretch of a run, under a promise of its own. */
  lemma KeepsOn(history: seq<Files>, n: nat, w0: Promise, longer: seq<Files>, w1: Promise, w: Promise)
    requires KeepsFrom(history, n, w0) && KeepsFrom(longer, |history|, w1) && history <= longer
    requires Within(w0, w) && Within(w1, w)
    ensures KeepsFrom(longer, n, w)
  {
  }

  /** One file has been added, elsewhere than at the path. */
  predicate OneMore(before: Files, now: Files, path: Path, name: Path) {
    name !in before && name != path && name in now && now == before[name := now[name]]
  }

  lemma OneMoreKeeps(before: Files, now: Files, path: Path, name: Path)
    requires OneMore(before, now, path, name)
    ensures name in now && name !in before && name != path && now - {name} == before
    ensures Keeps(now, Same(before, path)) && Leftover(before, now, path)
  {
  }

  /** A change to the added file is one more moment that keeps the rest. */
  lemma StepTaken(history: seq<Files>, n: nat, before: Files, path: Path, mid: Files, now: Files, name: Path)
    requires KeepsFrom(history, n, Same(before, path))
    requires OneMore(before, mid, path, name) && name in now && now == mid[name := now[name]]
    ensures OneMore(before, now, path, name) && KeepsFrom(history + [now], n, Same(before, path))
  {
  }

  /** Moving the added file to the path. */
  lemma RenameTaken(history: seq<Files>, n: nat, before: Files, path: Path, mid: Files, name: Path)
    requires KeepsFrom(history, n, Same(before, path)) && OneMore(before, mid, path, name)
    ensures name in mid && (mid - {name})[path := mid[name]] == before[path := mid[name]]
    ensures KeepsFrom(history + [before[path := mid[name]]], n, Either(before, path, mid[name]))
  {
  }

  lemma SameIsEither(history: seq<Files>, n: nat, before: Files, path: Path, file: File)
    requires KeepsFrom(history, n, Same(before, path))
    ensures KeepsFrom(history, n, Either(before, path, file))
  {
  }

  datatype CreateResult = Made | Exists | CreateFailed

  datatype ReadResult = Missing | ReadFailed | Data(content: Text)

  datatype LoadResult = NoFile | Unloadable | Loaded(policy: Policy)

  datatype BackupResult = NothingToKeep | Saved(name: Path) | BackupFailed

  /** Temporary names never name the live path. */
  ghost predicate Apart(env: Env, path: Path) { forall k :: env.temp(k) != path }

  ghost predicate IsTemp(env: Env, name: Path) { exists k :: name == env.temp(k) }

  /** All a failed operation can leave behind is one new file, never at the path. */
  ghost predicate Leftover(before: Files, now: Files, path: Path) {
    now == before || exists stray :: OneMore(before, now, path, stray)
  }

  /** Removing the temporary file, which a successful rename has already moved away. */
  lemma Removed(history: seq<Files>, n: nat, before: Files, path: Path, last: Files, now: Files, tmp: Path, file: File)
    requires KeepsFrom(history, n, Either(before, path, file)) && (now == last - {tmp} || now == last)
    requires last == before[path := file] || OneMore(before, last, path, tmp)
    requires tmp !in before && tmp != path
    ensures KeepsFrom(history + [now], n, Either(before, path, file))
    ensures last == before[path := file] ==> now == last
    ensures OneMore(before, last, path, tmp) ==> Leftover(before, now, path)
  {
  }

  /** Nothing fails, and the temporary names drawn from step n on are free and distinct. */
  ghost predicate Calm(env: Env, files: Files, n: nat, path: Path) {
    && (forall k :: !env.fails(k))
    && (forall k :: k >= n ==> env.temp(k) !in files)
    && (forall j, k :: j != k ==> env.temp(j) != env.temp(k))
    && (forall k, a :: env.temp(k) != BackupName(env, path, a))
  }

  lemma CalmAfter(env: Env, before: Files, now: Files, path: Path, k: nat, name: Path)
    requires OneMore(before, now, path, name) && name == env.temp(k)
    ensures Calm(env, before, k, path) ==> Calm(env, now, k + 1, path)
  {
  }

  lemma CalmLater(env: Env, before: Files, mid: Files, now: Files, path: Path, made: nat, n: nat, name: Path)
    requires OneMore(before, mid, path, name) && OneMore(before, now, path, name) && made <= n
    ensures Calm(env, mid, made, path) ==> Calm(env, now, n, path)
  {
  }

  ghost predicate FreeBackupName(env: Env, files: Files, path: Path) {
    exists a :: 0 <= a < BACKUP_ATTEMPTS && BackupName(env, path, a) !in files
  }

  /** The first free backup name. */
  ghost predicate IsNewBackup(env: Env, files: Files, path: Path, name: Path) {
    name !in files &&
    exists a :: 0 <= a < BACKUP_ATTEMPTS && name == BackupName(env, path, a) &&
                forall b :: 0 <= b < a ==> BackupName(env, path, b) in files
  }

  /** The path holds a complete policy file that renders as expected does, owner-only. */
  predicate IsInstalled(codec: Codec, files: Files, path: Path, expected: Policy) {
    && path in files
    && Parse(codec, files[path].content).Some?
    && Marshal(codec, Parse(codec, files[path].content).value) == Marshal(codec, expected)
    && files[path].mode == FILE_MODE
  }

  /** What restoring from a backup may put at the live path. */
  ghost function FromBackup(codec: Codec, saved: Option<File>): set<Option<File>> {
    if saved.Some? && Parse(codec, saved.value.content).Some?
    then {Some(Rendered(codec, Parse(codec, saved.value.content).value))}
    else {}
  }

  // ----- The transaction -----

  /** expected: the probes the operator asked to change, None for apply, which has no
      stated intent. live is the policy the operator was shown. */
  datatype Transaction = Transaction(
    livePath: Path, live: Policy, liveOnDisk: bool, candidate: Policy,
    expected: Option<seq<Probe>>, apply: bool, assumeYes: bool)

  /** What else happens meanwhile: the instant of the review, the operator's answer to the
      prompt (None if it cannot be read), and whether another process replaces or removes
      the live file between the install and its verification. */
  datatype Circumstances = Circumstances(at: Instant, answer: Option<bool>, meddling: Meddling)

  datatype Meddling = Quiet | Meddled(file: Option<File>)

  datatype Outcome =
    | NoCandidate | CandidateUnloadable | AnalysisErrors | UnexpectedChanges
    | NotApplied | Unanswered | Cancelled
    | NoBackup | InstallFailed | NothingToRestore | RollbackFailed | RolledBack | Installed

  datatype Review = Stopped(outcome: Outcome) | Reviewed(candidate: Path, reread: Policy)

  /** What the candidate reads back as. */
  function Reread(codec: Codec, t: Transaction): Option<Policy> { Parse(codec, Marshal(codec, t.candidate)) }

  function LivePolicy(t: Transaction): Option<Policy> { if t.liveOnDisk then Some(t.live) else None }

  ghost predicate NoErrors(p: Policy) { forall f :: IsFinding(p.rules, f) ==> f.severity != Error }

  /** A probe the delta looks at. */
  ghost predicate Probed(t: Transaction, reread: Policy, want: seq<Probe>, pr: Probe) {
    InCross([Some(t.live), Some(reread)], want, pr) || pr in want
  }

  /** The decision on a probe moves from live to candidate. */
  predicate Moves(t: Transaction, reread: Policy, at: Instant, pr: Probe) {
    Changed(Compared(LivePolicy(t), Some(reread), pr, at))
  }

  /** Every probed decision that moves was asked for, or is that of the agent twin of a
      requested probe and moves the same way. */
  ghost predicate Contained(t: Transaction, reread: Policy, at: Instant, want: seq<Probe>) {
    forall pr :: Probed(t, reread, want, pr) && Moves(t, reread, at, pr) ==>
      pr in want || TwinMoves(t, reread, at, want, pr)
  }

  predicate SameMove(c: Change, d: Change) { c.wasAllow == d.wasAllow && c.nowAllow == d.nowAllow }

  predicate TwinMoves(t: Transaction, reread: Policy, at: Instant, want: seq<Probe>, pr: Probe) {
    var plain := pr.(agent := false);
    && pr.agent && plain in want
    && SameMove(Compared(LivePolicy(t), Some(reread), plain, at), Compared(LivePolicy(t), Some(reread), pr, at))
  }

  /** Why the review stops, if it does: the candidate would not load, has a blocking
      finding, or changes something it was not asked to. */
  ghost function Objection(codec: Codec, t: Transaction, at: Instant): Option<Outcome> {
    if Reread(codec, t).None? then Some(NoCandidate)
    else if !NoErrors(Reread(codec, t).value) then Some(AnalysisErrors)
    else if t.expected.Some? && !Contained(t, Reread(codec, t).value, at, t.expected.value) then Some(UnexpectedChanges)
    else None
  }

  ghost predicate Acceptable(codec: Codec, t: Transaction, at: Instant) { Objection(codec, t, at).None? }

  /** The operator asked for the install and agreed to it. */
  predicate Agreed(t: Transaction, c: Circumstances) { t.apply && (t.assumeYes || c.answer == Some(true)) }

  ghost function MeddledWith(m: Meddling): set<Option<File>> { if m.Quiet? then {} else {m.file} }

  /** Every file an approved transaction can put, or find, at the live path. */
  ghost function Allowed(codec: Codec, before: Files, t: Transaction, c: Circumstances): set<Option<File>>
    requires Reread(codec, t).Some?
  {
    {Lookup(before, t.livePath), Some(Rendered(codec, Reread(codec, t).value))}
    + FromBackup(codec, Lookup(before, t.livePath)) + MeddledWith(c.meddling)
  }

  /** The only new file is the candidate's own, complete. */
  predicate IsCandidate(codec: Codec, before: Files, now: Files, path: Path, name: Path, p: Policy) {
    && OneMore(before, now, path, name)
    && now[name].content == Marshal(codec, p) && now[name].mode == FILE_MODE
  }

  lemma {:induction false} SameMoveIsFound(changes: seq<Change>, pr: Probe, c: Change)
    requires exists other :: other in changes && other.probe == pr
    requires forall other :: other in changes && other.probe == pr ==>
               other.wasAllow == c.wasAllow && other.nowAllow == c.nowAllow
    ensures MovedSameWay(changes, pr, c)
  {
    if changes[0].probe != pr {
      assert forall other :: other in changes[1..] ==> other in changes;
      SameMoveIsFound(changes[1..], pr, c);
    }
  }

  lemma ExpectedExactness(t: Transaction, reread: Policy, at: Instant, want: seq<Probe>, probes: seq<Probe>, pr: Probe)
    requires forall w :: w in want ==> w in probes
    requires pr in probes && Moves(t, reread, at, pr)
    ensures var changes := Changes(LivePolicy(t), Some(reread), probes, at);
            var c := Compared(LivePolicy(t), Some(reread), pr, at);
            c in changes && (IsExpected(changes, want, c) <==> pr in want || TwinMoves(t, reread, at, want, pr))
  {
    hide Decide;
    var live, updated := LivePolicy(t), Some(reread);
    var changes, c := Changes(live, updated, probes, at), Compared(live, updated, pr, at);
    ChangesAreExact(live, updated, probes, at, c);
    var plain := pr.(agent := false);
    if pr.agent && plain in want {
      forall other ensures other in changes <==>
        other.probe in probes && other == Compared(live, updated, other.probe, at) && Changed(other) {
        ChangesAreExact(live, updated, probes, at, other);
      }
      if MovedSameWay(changes, plain, c) {
        MovedSameWayIsListed(changes, plain, c);
      } else if TwinMoves(t, reread, at, want, pr) {
        assert Compared(live, updated, plain, at) in changes;
        SameMoveIsFound(changes, plain, c);
      }
    }
  }

  ghost predicate AllExpected(changes: seq<Change>, want: seq<Probe>) {
    forall c :: c in changes ==> IsExpected(changes, want, c)
  }

  /** The list of unexpected changes is empty exactly when the change is contained. */
  lemma UnexpectedExactness(t: Transaction, reread: Policy, at: Instant, want: seq<Probe>, probes: seq<Probe>)
    requires forall pr :: pr in probes <==> Probed(t, reread, want, pr)
    ensures AllExpected(Changes(LivePolicy(t), Some(reread), probes, at), want) <==> Contained(t, reread, at, want)
  {
    hide InCross, Decide, IsExpected, TwinMoves;
    var changes := Changes(LivePolicy(t), Some(reread), probes, at);
    if Contained(t, reread, at, want) {
      forall c | c in changes ensures IsExpected(changes, want, c) {
        ChangesAreExact(LivePolicy(t), Some(reread), probes, at, c);
        ExpectedExactness(t, reread, at, want, probes, c.probe);
      }
    }
    if AllExpected(changes, want) {
      forall pr | Probed(t, reread, want, pr) && Moves(t, reread, at, pr)
        ensures pr in want || TwinMoves(t, reread, at, want, pr)
      {
        ExpectedExactness(t, reread, at, want, probes, pr);
      }
    }
  }

  ghost function OrRestored(codec: Codec, before: Files, path: Path, saved: Option<File>): Promise {
    Promise(before, path, {Lookup(before, path)} + FromBackup(codec, saved))
  }

  ghost function Allows(codec: Codec, before: Files, t: Transaction, c: Circumstances): Promise
    requires Reread(codec, t).Some?
  {
    Promise(before, t.livePath, Allowed(codec, before, t, c))
  }

  lemma AllowsMeans(codec: Codec, before: Files, t: Transaction, c: Circumstances)
    requires Reread(codec, t).Some?
    ensures var w := Allows(codec, before, t, c);
            && w.before == before && w.path == t.livePath
            && Lookup(before, t.livePath) in w.allowed && Some(Rendered(codec, Reread(codec, t).value)) in w.allowed
            && FromBackup(codec, Lookup(before, t.livePath)) <= w.allowed
  {
  }

  function Tampered(files: Files, path: Path, m: Meddling): Files {
    match m
    case Quiet => files
    case Meddled(None) => files - {path}
    case Meddled(Some(file)) => files[path := file]
  }

  /** What Backup's success means for the rest of the run. */
  ghost predicate BackedUp(before: Files, now: Files, path: Path, backup: BackupResult) {
    match backup
    case NothingToKeep => path !in before
    case BackupFailed => false
    case Saved(name) =>
      && path in before && name != path && name !in before
      && name in now && now[name].content == before[path].content && now[name].synced
  }

  /** The path holds the complete rendering of what content parses to. */
  predicate IsRestored(codec: Codec, content: Text, files: Files, path: Path) {
    && Parse(codec, content).Some?
    && Lookup(files, path) == Some(Rendered(codec, Parse(codec, content).value))
  }

  /** The run after the install: what every step of verifying and rolling back keeps. */
  ghost predicate Settling(history: seq<Files>, n: nat, w: Promise, now: Files, backup: BackupResult) {
    && KeepsFrom(history, n, w) && Keeps(now, w)
    && BackedUp(w.before, now, w.path, backup)
  }

  lemma MeddlingSettles(history: seq<Files>, n: nat, codec: Codec, before: Files, t: Transaction, c: Circumstances,
                        now: Files, backup: BackupResult)
    requires Reread(codec, t).Some? && Settling(history, n, Allows(codec, before, t, c), now, backup)
    ensures var later := Tampered(now, t.livePath, c.meddling);
            Settling(history + [later], n, Allows(codec, before, t, c), later, backup)
  {
    var w, later := Allows(codec, before, t, c), Tampered(now, t.livePath, c.meddling);
    assert Keeps(later, w);
    KeepsStep(history, n, w, later);
  }

  lemma ReadingSettles(history: seq<Files>, n: nat, w: Promise, now: Files, backup: BackupResult, longer: seq<Files>)
    requires Settling(history, n, w, now, backup) && history <= longer
    requires forall i :: |history| <= i < |longer| ==> longer[i] == now
    ensures Settling(longer, n, w, now, backup)
  {
  }

  lemma RemovingSettles(history: seq<Files>, n: nat, w: Promise, now: Files, backup: BackupResult, name: Path,
                        later: Files)
    requires Settling(history, n, w, now, backup) && (later == now - {name} || later == now)
    requires name !in w.before && name != w.path && (backup.Saved? ==> backup.name != name)
    ensures Settling(history + [later], n, w, later, backup) && Lookup(later, w.path) == Lookup(now, w.path)
  {
  }

  lemma RestoringSettles(history: seq<Files>, n: nat, codec: Codec, w: Promise, now: Files, backup: BackupResult,
                         longer: seq<Files>, later: Files)
    requires Settling(history, n, w, now, backup) && history <= longer && backup.Saved?
    requires FromBackup(codec, Lookup(w.before, w.path)) <= w.allowed
    requires KeepsFrom(longer, |history|, OrRestored(codec, now, w.path, Lookup(now, backup.name)))
    requires Leftover(now, later, w.path) || IsRestoredFrom(codec, now, backup.name, later, w.path)
    ensures Settling(longer, n, w, later, backup)
    ensures IsRestoredFrom(codec, now, backup.name, later, w.path) ==>
              IsRestored(codec, w.before[w.path].content, later, w.path)
  {
  }

  lemma BackupMatters(history: seq<Files>, n: nat, w: Promise, now: Files, backup: BackupResult)
    requires Settling(history, n, w, now, backup)
    ensures !backup.Saved? ==> w.path !in w.before
    ensures backup.Saved? ==>
              w.path in w.before && backup.name in now && now[backup.name].content == w.before[w.path].content
  {
  }

  lemma StillInstalled(codec: Codec, before: Files, now: Files, path: Path, p: Policy)
    requires IsInstalled(codec, before, path, p) && Lookup(now, path) == Lookup(before, path)
    ensures IsInstalled(codec, now, path, p)
  {
  }

  lemma BackupSettles(history: seq<Files>, n: nat, w: Promise, mid: Files, candidate: Path,
                      longer: seq<Files>, now: Files, env: Env, r: BackupResult)
    requires KeepsFrom(history, n, Same(w.before, w.path)) && Lookup(w.before, w.path) in w.allowed
    requires OneMore(w.before, mid, w.path, candidate)
    requires history <= longer && KeepsFrom(longer, |history|, Same(mid, w.path))
    requires r.NothingToKeep? ==> w.path !in mid && now == mid
    requires r.Saved? ==> IsSaved(env, mid, now, w.path, r.name)
    requires r.BackupFailed? ==> Leftover(mid, now, w.path)
    ensures KeepsFrom(longer, n, w) && KeepsFrom(longer, n, Same(w.before, w.path)) &&
              Lookup(now, w.path) == Lookup(w.before, w.path)
    ensures !r.BackupFailed? ==> Settling(longer, n, w, now, r)
    ensures r.Saved? ==> r.name != candidate
  {
    OneMoreKeeps(w.before, mid, w.path, candidate);
    KeepsOn(history, n, Same(w.before, w.path), longer, Same(mid, w.path), Same(w.before, w.path));
    KeepsOn(history, n, Same(w.before, w.path), longer, Same(mid, w.path), w);
  }

  lemma InstallSettles(history: seq<Files>, n: nat, w: Promise, mid: Files, backup: BackupResult,
                       longer: seq<Files>, file: File, now: Files)
    requires Settling(history, n, w, mid, backup) && Some(file) in w.allowed
    requires history <= longer && KeepsFrom(longer, |history|, Either(mid, w.path, file))
    requires now == mid[w.path := file] || Leftover(mid, now, w.path)
    ensures Settling(longer, n, w, now, backup)
    ensures Leftover(mid, now, w.path) ==> Lookup(now, w.path) == Lookup(mid, w.path)
  {
  }

  lemma NothingLeft(before: Files, path: Path)
    ensures Leftover(before, before, path)
  {
  }

  /** Under calm, nothing fails now or later. */
  lemma CalmOn(env: Env, files: Files, n: nat, m: nat, path: Path)
    requires n <= m
    ensures Calm(env, files, n, path) ==> Calm(env, files, m, path) && forall k :: !env.fails(k)
  {
  }

  lemma BackupMade(env: Env, before: Files, now: Files, path: Path, attempt: nat)
    requires var name := BackupName(env, path, attempt);
             name !in before && name in now && now == before[name := now[name]]
    requires path in before && attempt < BACKUP_ATTEMPTS
    requires forall a :: 0 <= a < attempt ==> BackupName(env, path, a) in before
    ensures OneMore(before, now, path, BackupName(env, path, attempt))
    ensures IsNewBackup(env, before, path, BackupName(env, path, attempt))
  {
  }

  lemma BackupFilled(env: Env, before: Files, now: Files, path: Path, name: Path)
    requires path in before && OneMore(before, now, path, name) && IsNewBackup(env, before, path, name)
    ensures now[name].content == before[path].content && now[name].synced ==> IsSaved(env, before, now, path, name)
  {
  }

  lemma NoFreeName(env: Env, files: Files, path: Path)
    requires forall a :: 0 <= a < BACKUP_ATTEMPTS ==> BackupName(env, path, a) in files
    ensures !FreeBackupName(env, files, path)
  {
  }

  lemma CalmWithBackup(env: Env, before: Files, now: Files, n: nat, m: nat, path: Path, name: Path)
    requires n <= m && OneMore(before, now, path, name) && IsNewBackup(env, before, path, name)
    ensures Calm(env, before, n, path) ==> Calm(env, now, m, path)
  {
  }

  /** What a successful Backup leaves. */
  ghost predicate IsSaved(env: Env, before: Files, now: Files, path: Path, name: Path) {
    && path in before && name in now && IsNewBackup(env, before, path, name)
    && now == before[name := now[name]]
    && now[name].content == before[path].content && now[name].synced
  }

  /** What a successful Restore leaves. */
  predicate IsRestoredFrom(codec: Codec, before: Files, backup: Path, now: Files, path: Path) {
    && backup in before && Parse(codec, before[backup].content).Some?
    && now == before[path := Rendered(codec, Parse(codec, before[backup].content).value)]
  }

  /** What each outcome means for the live path and for the other files. */
  ghost predicate EndsWell(codec: Codec, before: Files, now: Files, t: Transaction, r: Outcome)
    requires Reread(codec, t).Some?
  {
    && (Touching(r) ==> exists backup :: BackedUp(before, now, t.livePath, backup))
    && (!Touching(r) ==> Lookup(now, t.livePath) == Lookup(before, t.livePath))
    && (r.Installed? ==> IsInstalled(codec, now, t.livePath, Reread(codec, t).value))
    && (r.NothingToRestore? ==> t.livePath !in before)
    && (r.RolledBack? ==> t.livePath in before && IsRestored(codec, before[t.livePath].content, now, t.livePath))
  }

  function PolicyAt(codec: Codec, files: Files, path: Path): Option<Policy> {
    if path in files then Parse(codec, files[path].content) else None
  }

  /** What an install is for: the policy now in force changes the decision on a probed
      request only if that was asked for, or on the agent twin of one that was, alike. */
  ghost predicate MovesOnlyRequested(t: Transaction, installed: Option<Policy>, at: Instant) {
    installed.Some? && (t.expected.Some? ==> Contained(t, installed.value, at, t.expected.value))
  }

  /** The live file, read back after an install, holds the policy whose changes were judged. */
  lemma InstalledMovesOnlyRequested(codec: Codec, before: Files, now: Files, t: Transaction, at: Instant)
    requires Faithful(codec) && Acceptable(codec, t, at) && EndsWell(codec, before, now, t, Installed)
    ensures PolicyAt(codec, now, t.livePath) == Reread(codec, t)
    ensures MovesOnlyRequested(t, PolicyAt(codec, now, t.livePath), at)
  {
    hide NoErrors, Contained;
    InstalledIsReviewed(codec, now, t);
  }

  lemma SettledWell(codec: Codec, history: seq<Files>, n: nat, w: Promise, now: Files, t: Transaction,
                    backup: BackupResult, r: Outcome)
    requires Reread(codec, t).Some? && Settling(history, n, w, now, backup) && w.path == t.livePath && Touching(r)
    requires r.Installed? ==> IsInstalled(codec, now, w.path, Reread(codec, t).value)
    requires r.NothingToRestore? ==> w.path !in w.before
    requires r.RolledBack? ==> w.path in w.before && IsRestored(codec, w.before[w.path].content, now, w.path)
    ensures EndsWell(codec, w.before, now, t, r)
  {
    hide IsInstalled, IsRestored, KeepsFrom, Keeps;
    assert BackedUp(w.before, now, w.path, backup);
  }

  /** The outcomes reached only after the live path was replaced. */
  predicate Touching(r: Outcome) { r.NothingToRestore? || r.RollbackFailed? || r.RolledBack? || r.Installed? }

  /** No operation fails, a backup name is free, and the codec is faithful. */
  ghost predicate Undisturbed(env: Env, codec: Codec, files: Files, n: nat, t: Transaction) {
    Calm(env, files, n, t.livePath) && FreeBackupName(env, files, t.livePath) && Faithful(codec)
  }

  /** How verification ends where no operation fails: whatever was found at the live path
      stays if it is as good as the candidate, and the old policy comes back otherwise,
      if there was one and it loads. */
  function Settlement(codec: Codec, before: Files, t: Transaction, c: Circumstances, reread: Policy): Outcome {
    var installed := before[t.livePath := Rendered(codec, reread)];
    if IsInstalled(codec, Tampered(installed, t.livePath, c.meddling), t.livePath, reread) then Installed
    else if t.livePath !in before then NothingToRestore
    else if Parse(codec, before[t.livePath].content).None? then RollbackFailed
    else RolledBack
  }

  /** A file that would pass for the candidate: it loads, renders alike and is owner-only. */
  predicate AsGood(codec: Codec, f: Option<File>, p: Policy) {
    && f.Some? && f.value.mode == FILE_MODE
    && Parse(codec, f.value.content).Some?
    && Marshal(codec, Parse(codec, f.value.content).value) == Marshal(codec, p)
  }

  /** The installed mode lets the owner read and write, and group and others nothing. */
  lemma OwnerOnly()
    ensures FILE_MODE / 64 == 6 && FILE_MODE / 8 % 8 == 0 && FILE_MODE % 8 == 0 && FILE_MODE % 64 == 0
  {
  }

  /** What an undisturbed run comes to once the candidate was put in place. */
  lemma SettlementExactness(codec: Codec, before: Files, t: Transaction, c: Circumstances, reread: Policy)
    requires Faithful(codec) && Reread(codec, t) == Some(reread)
    ensures var r := Settlement(codec, before, t, c, reread);
            if c.meddling.Quiet? || AsGood(codec, c.meddling.file, reread) then r.Installed?
            else if t.livePath !in before then r.NothingToRestore?
            else if Parse(codec, before[t.livePath].content).None? then r.RollbackFailed?
            else r.RolledBack?
  {
    assert Parse(codec, Marshal(codec, t.candidate)).Some?;
  }

  /** The one outcome of an undisturbed transaction. */
  ghost function Proper(codec: Codec, before: Files, t: Transaction, c: Circumstances): Outcome {
    if Objection(codec, t, c.at).Some? then Objection(codec, t, c.at).value
    else if !t.apply then NotApplied
    else if !t.assumeYes && c.answer.None? then Unanswered
    else if !t.assumeYes && !c.answer.value then Cancelled
    else Settlement(codec, before, t, c, Reread(codec, t).value)
  }

  lemma InstalledIsOwnerOnly(codec: Codec, before: Files, now: Files, t: Transaction, r: Outcome)
    requires Reread(codec, t).Some? && EndsWell(codec, before, now, t, r)
    ensures r.Installed? ==> t.livePath in now && now[t.livePath].mode % 64 == 0
  {
    OwnerOnly();
  }

  lemma ProperExactness(env: Env, codec: Codec, before: Files, now: Files, n: nat, t: Transaction, c: Circumstances,
                        r: Outcome)
    requires Acceptable(codec, t, c.at) && Agreed(t, c) && EndsWell(codec, before, now, t, r)
    requires Undisturbed(env, codec, before, n, t) ==> r == Settlement(codec, before, t, c, Reread(codec, t).value)
    ensures Undisturbed(env, codec, before, n, t) ==>
              (r.Installed? <==> c.meddling.Quiet? || AsGood(codec, c.meddling.file, Reread(codec, t).value))
    ensures Undisturbed(env, codec, before, n, t) && r.RollbackFailed? ==>
              t.livePath in before && Parse(codec, before[t.livePath].content).None?
    ensures Undisturbed(env, codec, before, n, t) && !r.Installed? && t.livePath in before &&
            Parse(codec, before[t.livePath].content).Some? ==>
              && r.RolledBack?
              && Lookup(now, t.livePath) ==
                 Some(File(Marshal(codec, Parse(codec, before[t.livePath].content).value), FILE_MODE, true))
  {
    if Undisturbed(env, codec, before, n, t) {
      SettlementExactness(codec, before, t, c, Reread(codec, t).value);
    }
    hide Settlement, AsGood, Calm, FreeBackupName, NoErrors, Contained, IsInstalled;
  }

  /** Where an undisturbed transaction stops short of the install, and why. */
  lemma StopExactness(codec: Codec, before: Files, t: Transaction, c: Circumstances)
    ensures var r, reread := Proper(codec, before, t, c), Reread(codec, t);
            var sound := reread.Some? && NoErrors(reread.value);
            var asked := t.expected.None? || (sound && Contained(t, reread.value, c.at, t.expected.value));
            && (r.NoCandidate? <==> reread.None?)
            && (r.AnalysisErrors? <==> reread.Some? && !NoErrors(reread.value))
            && (r.UnexpectedChanges? <==> sound && !asked)
            && (r.NotApplied? <==> sound && asked && !t.apply)
            && (r.Unanswered? <==> sound && asked && t.apply && !t.assumeYes && c.answer.None?)
            && (r.Cancelled? <==> sound && asked && t.apply && !t.assumeYes && c.answer == Some(false))
            && !r.CandidateUnloadable? && !r.NoBackup? && !r.InstallFailed?
  {
    hide NoErrors, Contained, IsInstalled, Tampered;
  }

  /** The live path may come and go: no temporary name is that. */
  lemma CalmBesides(env: Env, files: Files, now: Files, n: nat, m: nat, path: Path)
    requires Apart(env, path) && n <= m && now.Keys <= files.Keys + {path}
    ensures Calm(env, files, n, path) ==> Calm(env, now, m, path)
  {
  }

  lemma SettlementMeans(codec: Codec, before: Files, now: Files, t: Transaction, c: Circumstances, reread: Policy)
    requires Lookup(now, t.livePath) == Some(Rendered(codec, reread))
    ensures IsInstalled(codec, Tampered(now, t.livePath, c.meddling), t.livePath, reread) <==>
              Settlement(codec, before, t, c, reread) == Installed
    ensures Tampered(now, t.livePath, c.meddling).Keys <= now.Keys + {t.livePath}
  {
  }

  lemma FaithfulSurvives(codec: Codec, data: Text)
    requires Faithful(codec) && Parse(codec, data).Some?
    ensures Parse(codec, Marshal(codec, Parse(codec, data).value)).Some?
  {
  }

  lemma SameAllows(history: seq<Files>, n: nat, codec: Codec, before: Files, t: Transaction, c: Circumstances)
    requires KeepsFrom(history, n, Same(before, t.livePath))
    ensures Reread(codec, t).Some? ==> KeepsFrom(history, n, Allows(codec, before, t, c))
  {
  }

  lemma EndsEarly(codec: Codec, before: Files, now: Files, t: Transaction, r: Outcome)
    requires Leftover(before, now, t.livePath) && !Touching(r)
    ensures Lookup(now, t.livePath) == Lookup(before, t.livePath)
    ensures Reread(codec, t).Some? ==> EndsWell(codec, before, now, t, r)
  {
  }

  lemma CandidateMeans(codec: Codec, before: Files, now: Files, path: Path, name: Path, p: Policy)
    requires IsCandidate(codec, before, now, path, name, p)
    ensures OneMore(before, now, path, name) && Leftover(before, now, path)
  {
  }

  lemma AcceptableMeans(codec: Codec, t: Transaction, at: Instant)
    ensures Acceptable(codec, t, at) <==> Objection(codec, t, at).None?
    ensures Acceptable(codec, t, at) ==> Reread(codec, t).Some?
  {
  }

  lemma UndisturbedMeans(env: Env, codec: Codec, files: Files, n: nat, t: Transaction)
    ensures Undisturbed(env, codec, files, n, t) ==> Calm(env, files, n, t.livePath)
  {
  }

  lemma UndisturbedOn(env: Env, codec: Codec, before: Files, now: Files, n: nat, m: nat, t: Transaction, name: Path)
    requires OneMore(before, now, t.livePath, name) && IsTemp(env, name)
    requires Calm(env, before, n, t.livePath) ==> Calm(env, now, m, t.livePath)
    ensures Undisturbed(env, codec, before, n, t) ==> Undisturbed(env, codec, now, m, t)
  {
  }

  class Disk {
    const env: Env
    const codec: Codec
    var files: Files
    var step: nat

    /** Every moment so far: a crash leaves one of these. */
    ghost var history: seq<Files>

    constructor (env: Env, codec: Codec, files: Files)
      ensures this.env == env && this.codec == codec && this.files == files && step == 0 && history == []
    {
      this.env, this.codec, this.files, step, history := env, codec, files, 0, [];
    }

    // ----- File operations -----

    /** One operation, which the environment may make fail. */
    method Tick() returns (ok: bool)
      modifies this`step
      ensures step == old(step) + 1 && ok == !env.fails(old(step))
    {
      ok := !env.fails(step);
      step := step + 1;
    }

    /** Exclusive creation of an empty file. */
    method Create(name: Path, mode: nat) returns (r: CreateResult)
      modifies this
      ensures step == old(step) + 1 && history == old(history) + [files]
      ensures r.Made? ==> name !in old(files) && files == old(files)[name := File([], mode, false)]
      ensures !r.Made? ==> files == old(files)
      ensures r.Exists? ==> name in files
      ensures r.CreateFailed? ==> env.fails(old(step))
    {
      var ok := Tick();
      if !ok {
        r := CreateFailed;
      } else if name in files {
        r := Exists;
      } else {
        files := files[name := File([], mode, false)];
        r := Made;
      }
      history := history + [files];
    }

    method Chmod(name: Path, mode: nat) returns (ok: bool)
      requires name in files
      modifies this
      ensures step == old(step) + 1 && history == old(history) + [files] && ok == !env.fails(old(step))
      ensures files == if ok then old(files)[name := old(files)[name].(mode := mode)] else old(files)
    {
      ok := Tick();
      if ok {
        files := files[name := files[name].(mode := mode)];
      }
      history := history + [files];
    }

    /** Appends data; a failing write may leave any part of it. */
    method Write(name: Path, data: Text) returns (ok: bool)
      requires name in files
      modifies this
      ensures step == old(step) + 1 && history == old(history) + [files] && ok == !env.fails(old(step))
      ensures name in files && files == old(files)[name := files[name]] && files[name].mode == old(files)[name].mode
      ensures ok ==> files[name].content == old(files)[name].content + data
    {
      var kept := env.kept(step);
      ok := Tick();
      var written := if ok || kept > |data| then data else data[..kept];
      files := files[name := File(files[name].content + written, files[name].mode, false)];
      history := history + [files];
    }

    method Sync(name: Path) returns (ok: bool)
      requires name in files
      modifies this
      ensures step == old(step) + 1 && history == old(history) + [files] && ok == !env.fails(old(step))
      ensures files == if ok then old(files)[name := old(files)[name].(synced := true)] else old(files)
    {
      ok := Tick();
      if ok {
        files := files[name := files[name].(synced := true)];
      }
      history := history + [files];
    }

    /** rename(2): one step, replacing what was at the target. */
    method Rename(source: Path, target: Path) returns (ok: bool)
      requires source in files && source != target
      modifies this
      ensures step == old(step) + 1 && history == old(history) + [files] && ok == !env.fails(old(step))
      ensures files == if ok then (old(files) - {source})[target := old(files)[source]] else old(files)
    {
      ok := Tick();
      if ok {
        files := (files - {source})[target := files[source]];
      }
      history := history + [files];
    }

    method Remove(name: Path)
      modifies this
      ensures step == old(step) + 1 && history == old(history) + [files]
      ensures files == if env.fails(old(step)) then old(files) else old(files) - {name}
    {
      var ok := Tick();
      if ok {
        files := files - {name};
      }
      history := history + [files];
    }

    method ReadFile(name: Path) returns (r: ReadResult)
      modifies this
      ensures step == old(step) + 1 && history == old(history) + [files] && files == old(files)
      ensures r.ReadFailed? <==> env.fails(old(step))
      ensures r.Missing? ==> name !in files
      ensures r.Data? ==> name in files && r.content == files[name].content
    {
      var ok := Tick();
      r := if !ok then ReadFailed else if name in files then Data(files[name].content) else Missing;
      history := history + [files];
    }

    method StatMode(name: Path) returns (mode: Option<nat>)
      modifies this
      ensures step == old(step) + 1 && history == old(history) + [files] && files == old(files)
      ensures mode.Some? ==> name in files && mode.value == files[name].mode
      ensures mode.None? <==> env.fails(old(step)) || name !in files
    {
      var ok := Tick();
      mode := if ok && name in files then Some(files[name].mode) else None;
      history := history + [files];
    }

    // ----- The policy file -----

    /** Installs p at path in one step, or leaves what was there. At every moment the path
        holds what it held or the complete, flushed rendering of p. */
    method WriteAtomic(path: Path, p: Policy) returns (ok: bool)
      requires Apart(env, path)
      modifies this
      ensures old(history) <= history && old(step) <= step
      ensures KeepsFrom(history, |old(history)|, Either(old(files), path, Rendered(codec, p)))
      ensures ok ==> Parse(codec, Marshal(codec, p)).Some? && files == old(files)[path := Rendered(codec, p)]
      ensures !ok ==> Leftover(old(files), files, path)
      ensures Calm(env, old(files), old(step), path) && Parse(codec, Marshal(codec, p)).Some? ==>
                ok && Calm(env, files, step, path)
    {
      ghost var before, n, file := files, |history|, Rendered(codec, p);
      KeepsStart(history, before, path);
      SameIsEither(history, n, before, path, file);
      var data := Marshal(codec, p);
      if Parse(codec, data).None? {
        return false;
      }
      var made := Tick();
      if !made {
        return false;
      }
      var tmp := env.temp(step);
      ghost var h := history;
      var created := Create(tmp, FILE_MODE);
      if !created.Made? {
        return false;
      }
      OneMoreKeeps(before, files, path, tmp);
      hide KeepsFrom, Keeps, OneMore, Same, Either, Lookup;
      KeepsStep(h, n, Same(before, path), files);
      ok := FillAndInstall(tmp, path, data, before, n);
      if !ok {
        OneMoreKeeps(before, files, path, tmp);
      }
      h := history;
      ghost var last := files;
      Remove(tmp);
      Removed(h, n, before, path, last, files, tmp, file);
      if ok {
        CalmBesides(env, before, files, old(step), step, path);
      }
    }

    /** WriteAtomic once the temporary file exists: permissions, content, flush, close, rename. */
    method FillAndInstall(tmp: Path, path: Path, data: Text, ghost before: Files, ghost n: nat) returns (ok: bool)
      requires OneMore(before, files, path, tmp) && files[tmp] == File([], FILE_MODE, false)
      requires KeepsFrom(history, n, Same(before, path))
      modifies this
      ensures old(history) <= history && old(step) <= step
      ensures KeepsFrom(history, n, Either(before, path, File(data, FILE_MODE, true)))
      ensures ok ==> files == before[path := File(data, FILE_MODE, true)]
      ensures !ok ==> OneMore(before, files, path, tmp)
      ensures (forall k :: !env.fails(k)) ==> ok
    {
      ghost var file := File(data, FILE_MODE, true);
      OneMoreKeeps(before, files, path, tmp);
      hide KeepsFrom, Keeps, OneMore, Same, Either, Lookup;
      ghost var h, mid := history, files;
      ok := Chmod(tmp, FILE_MODE);
      StepTaken(h, n, before, path, mid, files, tmp);
      if ok {
        ok := Fill(tmp, path, data, before, n);
      }
      SameIsEither(history, n, before, path, file);
      if ok {
        h, mid := history, files;
        RenameTaken(h, n, before, path, mid, tmp);
        OneMoreKeeps(before, mid, path, tmp);
        StepTaken(h, n, before, path, mid, mid, tmp);
        SameIsEither(h + [mid], n, before, path, file);
        ok := Rename(tmp, path);
      }
    }

    /** A file just created gets its content, and is flushed and closed. */
    method Fill(name: Path, path: Path, data: Text, ghost before: Files, ghost n: nat) returns (ok: bool)
      requires OneMore(before, files, path, name) && files[name].content == []
      requires KeepsFrom(history, n, Same(before, path))
      modifies this
      ensures old(history) <= history && old(step) <= step
      ensures KeepsFrom(history, n, Same(before, path))
      ensures OneMore(before, files, path, name) && files[name].mode == old(files)[name].mode
      ensures ok ==> files[name].content == data && files[name].synced
      ensures (forall k :: !env.fails(k)) ==> ok
    {
      OneMoreKeeps(before, files, path, name);
      hide Keeps, KeepsFrom, OneMore, Lookup, Same;
      ghost var mid, h := files, history;
      ok := Write(name, data);
      StepTaken(h, n, before, path, mid, files, name);
      OneMoreKeeps(before, files, path, name);
      if ok {
        mid, h := files, history;
        ok := Sync(name);
        StepTaken(h, n, before, path, mid, files, name);
        OneMoreKeeps(before, files, path, name);
      }
      if ok {
        ok := Tick();
      }
    }

    /** Copies the file at path to a new name beside it, never over an existing file. */
    method Backup(path: Path) returns (r: BackupResult)
      modifies this
      ensures old(history) <= history && old(step) <= step
      ensures KeepsFrom(history, |old(history)|, Same(old(files), path))
      ensures r.NothingToKeep? ==> path !in old(files) && files == old(files)
      ensures r.Saved? ==> IsSaved(env, old(files), files, path, r.name)
      ensures r.Saved? ==> files[r.name].mode == old(files)[path].mode
                           || (files[r.name].mode == FILE_MODE && exists k :: old(step) <= k < step && env.fails(k))
      ensures r.BackupFailed? ==> Leftover(old(files), files, path)
      ensures Calm(env, old(files), old(step), path) && FreeBackupName(env, old(files), path) ==>
                !r.BackupFailed? && Calm(env, files, step, path)
    {
      ghost var before, n, start := files, |history|, step;
      KeepsStart(history, before, path);
      hide KeepsFrom, Keeps, Same, OneMore, Lookup, Leftover, IsSaved, Calm, IsNewBackup, FreeBackupName;
      var source := ReadFile(path);
      KeepsStep(old(history), n, Same(before, path), files);
      NothingLeft(before, path);
      CalmOn(env, before, start, step, path);
      if source.Missing? {
        return NothingToKeep;
      }
      if source.ReadFailed? {
        return BackupFailed;
      }
      ghost var h := history;
      var stat := StatMode(path);
      KeepsStep(h, n, Same(before, path), files);
      var mode := if stat.Some? then stat.value else FILE_MODE;
      for attempt := 0 to BACKUP_ATTEMPTS
        invariant old(history) <= history && start <= step && files == before
        invariant KeepsFrom(history, n, Same(before, path))
        invariant mode == before[path].mode || (mode == FILE_MODE && exists k :: start <= k < step && env.fails(k))
        invariant forall a :: 0 <= a < attempt ==> BackupName(env, path, a) in before
      {
        var name := BackupName(env, path, attempt);
        h := history;
        var created := Create(name, mode);
        if created.CreateFailed? {
          KeepsStep(h, n, Same(before, path), files);
          return BackupFailed;
        }
        if created.Made? {
          BackupMade(env, before, files, path, attempt);
          OneMoreKeeps(before, files, path, name);
          KeepsStep(h, n, Same(before, path), files);
          var ok := Fill(name, path, source.content, before, n);
          OneMoreKeeps(before, files, path, name);
          BackupFilled(env, before, files, path, name);
          CalmWithBackup(env, before, files, start, step, path, name);
          return if ok then Saved(name) else BackupFailed;
        }
        KeepsStep(h, n, Same(before, path), files);
      }
      NoFreeName(env, before, path);
      return BackupFailed;
    }

    /** LoadFile: an absent file is not an error, an unreadable one is. */
    method LoadFile(path: Path) returns (r: LoadResult)
      modifies this
      ensures history == old(history) + [files] && step == old(step) + 1 && files == old(files)
      ensures r.NoFile? ==> path !in files
      ensures r.Loaded? ==> path in files && Parse(codec, files[path].content) == Some(r.policy)
      ensures r.Unloadable? ==> env.fails(old(step)) || (path in files && Parse(codec, files[path].content).None?)
    {
      var source := ReadFile(path);
      match source
      case Missing => return NoFile;
      case ReadFailed => return Unloadable;
      case Data(content) =>
        var p := Parse(codec, content);
        return if p.Some? then Loaded(p.value) else Unloadable;
    }

    /** Puts a backup back, through the same install a normal write takes. */
    method Restore(backup: Path, path: Path) returns (ok: bool)
      requires Apart(env, path)
      modifies this
      ensures old(history) <= history && old(step) <= step
      ensures KeepsFrom(history, |old(history)|, OrRestored(codec, old(files), path, Lookup(old(files), backup)))
      ensures ok ==> IsRestoredFrom(codec, old(files), backup, files, path)
      ensures !ok ==> Leftover(old(files), files, path)
      ensures Calm(env, old(files), old(step), path) && Faithful(codec) && backup in old(files) ==>
                (ok <==> Parse(codec, old(files)[backup].content).Some?)
    {
      ghost var before, n, w := files, |history|, OrRestored(codec, files, path, Lookup(files, backup));
      KeepsStart(history, before, path);
      var loaded := LoadFile(backup);
      KeepsStep(old(history), n, Same(before, path), files);
      KeepsOn(history, n, Same(before, path), history, Same(before, path), w);
      if !loaded.Loaded? {
        return false;
      }
      ghost var h := history;
      CalmBesides(env, files, files, old(step), step, path);
      if Faithful(codec) {
        FaithfulSurvives(codec, files[backup].content);
      }
      ok := WriteAtomic(path, loaded.policy);
      KeepsOn(h, n, Same(before, path), history, Either(before, path, Rendered(codec, loaded.policy)), w);
    }

    /** Reads the installed file back: it loads, renders as expected and is owner-only. */
    method VerifyInstalled(path: Path, expected: Policy) returns (ok: bool)
      modifies this
      ensures old(history) <= history && old(step) <= step && files == old(files)
      ensures forall i :: |old(history)| <= i < |history| ==> history[i] == files
      ensures ok ==> IsInstalled(codec, files, path, expected)
      ensures !ok && (forall k :: !env.fails(k)) ==> !IsInstalled(codec, files, path, expected)
    {
      var loaded := LoadFile(path);
      if !loaded.Loaded? {
        return false;
      }
      if Marshal(codec, expected) != Marshal(codec, loaded.policy) {
        return false;
      }
      var mode := StatMode(path);
      ok := mode == Some(FILE_MODE);
    }

    // ----- The transaction -----

    /** Writes a candidate to a file of its own, for review. */
    method WriteCandidate(path: Path, p: Policy) returns (r: Option<Path>)
      requires Apart(env, path)
      modifies this
      ensures old(history) <= history && old(step) <= step
      ensures KeepsFrom(history, |old(history)|, Same(old(files), path))
      ensures r.Some? ==> IsCandidate(codec, old(files), files, path, r.value, p) && IsTemp(env, r.value)
      ensures r.None? ==> Leftover(old(files), files, path)
      ensures Calm(env, old(files), old(step), path) ==> (r.Some? <==> Parse(codec, Marshal(codec, p)).Some?)
      ensures Calm(env, old(files), old(step), path) ==> Calm(env, files, step, path)
    {
      ghost var before, n := files, |history|;
      KeepsStart(history, before, path);
      var data := Marshal(codec, p);
      if Parse(codec, data).None? {
        return None;
      }
      var name := env.temp(step);
      ghost var h := history;
      var created := Create(name, FILE_MODE);
      if !created.Made? {
        return None;
      }
      OneMoreKeeps(before, files, path, name);
      KeepsStep(h, n, Same(before, path), files);
      CalmAfter(env, before, files, path, step - 1, name);
      ghost var made, first := step, files;
      assert Calm(env, old(files), old(step), path) ==> forall k :: !env.fails(k);
      hide KeepsFrom, Keeps, OneMore, Same, Lookup, Calm, Leftover;
      var ok := FillCandidate(name, path, data, before, n);
      CalmLater(env, before, first, files, path, made, step, name);
      if ok {
        return Some(name);
      }
      h := history;
      OneMoreKeeps(before, files, path, name);
      KeepsStart(h, before, path);
      Remove(name);
      KeepsStep(h, n, Same(before, path), files);
      return None;
    }

    method FillCandidate(name: Path, path: Path, data: Text, ghost before: Files, ghost n: nat) returns (ok: bool)
      requires OneMore(before, files, path, name) && files[name].content == []
      requires KeepsFrom(history, n, Same(before, path))
      modifies this
      ensures old(history) <= history && old(step) <= step
      ensures KeepsFrom(history, n, Same(before, path)) && OneMore(before, files, path, name)
      ensures ok ==> files[name].content == data && files[name].mode == FILE_MODE
      ensures (forall k :: !env.fails(k)) ==> ok
    {
      OneMoreKeeps(before, files, path, name);
      hide KeepsFrom, Keeps, OneMore, Same, Lookup;
      ghost var h, mid := history, files;
      ok := Chmod(name, FILE_MODE);
      StepTaken(h, n, before, path, mid, files, name);
      OneMoreKeeps(before, files, path, name);
      if ok {
        h, mid := history, files;
        ok := Write(name, data);
        StepTaken(h, n, before, path, mid, files, name);
        OneMoreKeeps(before, files, path, name);
      }
      if ok {
        ok := Tick();
      }
    }

    /** runTransaction up to the delta: the candidate is written, read back and judged. */
    method ReviewCandidate(t: Transaction, at: Instant) returns (r: Review)
      requires Apart(env, t.livePath)
      modifies this
      ensures old(history) <= history && old(step) <= step
      ensures KeepsFrom(history, |old(history)|, Same(old(files), t.livePath))
      ensures r.Reviewed? ==> Acceptable(codec, t, at) && Reread(codec, t) == Some(r.reread)
                              && IsCandidate(codec, old(files), files, t.livePath, r.candidate, t.candidate)
                              && IsTemp(env, r.candidate)
      ensures r.Stopped? ==> Leftover(old(files), files, t.livePath)
                             && r.outcome in {NoCandidate, CandidateUnloadable, AnalysisErrors, UnexpectedChanges}
      ensures r.Stopped? && r.outcome in {AnalysisErrors, UnexpectedChanges} ==>
                Objection(codec, t, at) == Some(r.outcome)
      ensures Calm(env, old(files), old(step), t.livePath) ==>
                && Objection(codec, t, at) == (if r.Stopped? then Some(r.outcome) else None)
                && Calm(env, files, step, t.livePath)
    {
      var path := t.livePath;
      ghost var before, n, h := files, |history|, history;
      assert Calm(env, files, step, path) ==> forall k :: !env.fails(k);
      var name := WriteCandidate(path, t.candidate);
      if name.None? {
        return Stopped(NoCandidate);
      }
      OneMoreKeeps(before, files, path, name.value);
      h := history;
      ghost var made, first := step, files;
      hide KeepsFrom, Keeps, OneMore, Same, Lookup, Calm, Contained, NoErrors, InCross, IsExpected;
      var loaded := LoadFile(name.value);
      StepTaken(h, n, before, path, first, first, name.value);
      CalmLater(env, before, first, files, path, made, step, name.value);
      if !loaded.Loaded? {
        h := history;
        Remove(name.value);
        KeepsStart(h, before, path);
        StepTaken(h, n, before, path, first, first, name.value);
        KeepsStep(h, n, Same(before, path), files);
        return Stopped(CandidateUnloadable);
      }
      r := Judge(t, at, name.value, loaded.policy);
    }

    /** Another process replaces or removes the live file. */
    method Meddle(path: Path, m: Meddling)
      modifies this
      ensures history == old(history) + [files] && step == old(step)
      ensures files == Tampered(old(files), path, m)
    {
      files := Tampered(files, path, m);
      history := history + [files];
    }

    /** Verifies what is installed, and rolls back to the backup if it is not what was approved. */
    method Settle(t: Transaction, c: Circumstances, candidate: Path, reread: Policy, backup: BackupResult,
                  ghost before: Files, ghost n: nat)
      returns (r: Outcome)
      requires Apart(env, t.livePath) && Reread(codec, t) == Some(reread)
      requires Settling(history, n, Allows(codec, before, t, c), files, backup)
      requires candidate !in before && candidate != t.livePath && (backup.Saved? ==> backup.name != candidate)
      modifies this
      ensures old(history) <= history && Settling(history, n, Allows(codec, before, t, c), files, backup)
      ensures Touching(r) && EndsWell(codec, before, files, t, r)
      requires Lookup(files, t.livePath) == Some(Rendered(codec, reread))
      ensures Calm(env, old(files), old(step), t.livePath) && Faithful(codec) ==>
                r == Settlement(codec, before, t, c, reread)
    {
      var path := t.livePath;
      ghost var w := Allows(codec, before, t, c);
      hide Allows, Allowed, KeepsFrom, Keeps, Settling, Lookup, FromBackup, Tampered, Leftover, IsRestoredFrom,
        IsRestored, Others, IsInstalled, BackedUp, Calm, Faithful, Apart, EndsWell;
      AllowsMeans(codec, before, t, c);
      ghost var h, mid := history, files;
      MeddlingSettles(h, n, codec, before, t, c, mid, backup);
      SettlementMeans(codec, before, files, t, c, reread);
      Meddle(path, c.meddling);
      h := history;
      var ok := VerifyInstalled(path, reread);
      ReadingSettles(h, n, w, files, backup, history);
      BackupMatters(history, n, w, files, backup);
      CalmBesides(env, mid, files, old(step), step, path);
      CalmOn(env, mid, old(step), step, path);
      h, mid := history, files;
      if ok {
        Remove(candidate);
        RemovingSettles(h, n, w, mid, backup, candidate, files);
        StillInstalled(codec, mid, files, path, reread);
        SettledWell(codec, history, n, w, files, t, backup, Installed);
        return Installed;
      }
      if !backup.Saved? {
        SettledWell(codec, history, n, w, files, t, backup, NothingToRestore);
        return NothingToRestore;
      }
      ok := Restore(backup.name, path);
      RestoringSettles(h, n, codec, w, mid, backup, history, files);
      r := if ok then RolledBack else RollbackFailed;
      SettledWell(codec, history, n, w, files, t, backup, r);
    }

    /** runTransaction's last part: back up, install, settle. */
    method InstallCandidate(t: Transaction, c: Circumstances, candidate: Path, reread: Policy, ghost before: Files,
                            ghost n: nat)
      returns (r: Outcome)
      requires Apart(env, t.livePath) && Reread(codec, t) == Some(reread)
      requires OneMore(before, files, t.livePath, candidate) && KeepsFrom(history, n, Same(before, t.livePath))
      modifies this
      ensures old(history) <= history && KeepsFrom(history, n, Allows(codec, before, t, c))
      ensures EndsWell(codec, before, files, t, r)
      ensures Undisturbed(env, codec, old(files), old(step), t) ==> r == Settlement(codec, before, t, c, reread)
    {
      var path := t.livePath;
      ghost var w, h, mid := Allows(codec, before, t, c), history, files;
      ghost var file := Rendered(codec, reread);
      hide Allows, Allowed, Settling, KeepsFrom, Keeps, Either, Calm, IsSaved, Leftover, Same, OneMore, Others,
        Lookup, FromBackup;
      AllowsMeans(codec, before, t, c);
      OneMoreKeeps(before, files, path, candidate);
      var backup := Backup(path);
      BackupSettles(h, n, w, mid, candidate, history, files, env, backup);
      if backup.BackupFailed? {
        return NoBackup;
      }
      h, mid := history, files;
      if Faithful(codec) {
        FaithfulSurvives(codec, Marshal(codec, t.candidate));
      }
      var ok := WriteAtomic(path, reread);
      InstallSettles(h, n, w, mid, backup, history, file, files);
      if !ok {
        return InstallFailed;
      }
      r := Settle(t, c, candidate, reread, backup, before, n);
    }

    /** runTransaction. Until the candidate is acceptable and the operator has agreed the
        live path stays as it was, at every moment and whatever fails; after that it holds,
        at every moment, the old file, the complete candidate, or the complete old policy
        restored. Files that were there, backups among them, never change. */
    method RunTransaction(t: Transaction, c: Circumstances) returns (r: Outcome)
      requires Apart(env, t.livePath)
      modifies this
      ensures old(history) <= history
      ensures Acceptable(codec, t, c.at) && Agreed(t, c) ==>
                KeepsFrom(history, |old(history)|, Allows(codec, old(files), t, c)) &&
                EndsWell(codec, old(files), files, t, r)
      ensures !(Acceptable(codec, t, c.at) && Agreed(t, c)) ==>
                KeepsFrom(history, |old(history)|, Same(old(files), t.livePath)) && !Touching(r)
                && Lookup(files, t.livePath) == Lookup(old(files), t.livePath)
      ensures r.Installed? && Faithful(codec) ==> MovesOnlyRequested(t, PolicyAt(codec, files, t.livePath), c.at)
      ensures Undisturbed(env, codec, old(files), old(step), t) ==> r == Proper(codec, old(files), t, c)
      ensures r.Installed? || r.RolledBack? || r.RollbackFailed? || r.NothingToRestore? ==>
                Acceptable(codec, t, c.at) && t.apply && (t.assumeYes || c.answer == Some(true))
      ensures r.Installed? ==> t.livePath in files && files[t.livePath].mode % 64 == 0
      ensures Undisturbed(env, codec, old(files), old(step), t) && r.RollbackFailed? ==>
                t.livePath in old(files) && Parse(codec, old(files)[t.livePath].content).None?
      ensures Undisturbed(env, codec, old(files), old(step), t) && Acceptable(codec, t, c.at) && Agreed(t, c) ==>
                (r.Installed? <==> c.meddling.Quiet? || AsGood(codec, c.meddling.file, Reread(codec, t).value))
      ensures Undisturbed(env, codec, old(files), old(step), t) && Acceptable(codec, t, c.at) && Agreed(t, c)
              && !r.Installed? && t.livePath in old(files) && Parse(codec, old(files)[t.livePath].content).Some? ==>
                && r.RolledBack?
                && Lookup(files, t.livePath) ==
                   Some(File(Marshal(codec, Parse(codec, old(files)[t.livePath].content).value), FILE_MODE, true))
    {
      ghost var before, n, start := files, |history|, step;
      hide Acceptable, Objection, KeepsFrom, EndsWell, Keeps, Same, Allows, Calm, Undisturbed, Leftover, IsCandidate,
        AsGood, MovesOnlyRequested, Settlement, Lookup, Faithful, Apart;
      var review := ReviewCandidate(t, c.at);
      SameAllows(history, n, codec, before, t, c);
      UndisturbedMeans(env, codec, before, start, t);
      AcceptableMeans(codec, t, c.at);
      if review.Stopped? {
        EndsEarly(codec, before, files, t, review.outcome);
        return review.outcome;
      }
      CandidateMeans(codec, before, files, t.livePath, review.candidate, t.candidate);
      UndisturbedOn(env, codec, before, files, start, step, t, review.candidate);
      EndsEarly(codec, before, files, t, NotApplied);
      if !t.apply {
        return NotApplied;
      }
      if !t.assumeYes {
        if c.answer.None? {
          EndsEarly(codec, before, files, t, Unanswered);
          return Unanswered;
        }
        if !c.answer.value {
          EndsEarly(codec, before, files, t, Cancelled);
          return Cancelled;
        }
      }
      r := InstallCandidate(t, c, review.candidate, review.reread, before, n);
      if r.Installed? && Faithful(codec) {
        InstalledMovesOnlyRequested(codec, before, files, t, c.at);
      }
      InstalledIsOwnerOnly(codec, before, files, t, r);
      ProperExactness(env, codec, before, files, start, t, c, r);
    }
  }

  /** runTransaction's verdict on a candidate that loads. */
  method Judge(t: Transaction, at: Instant, name: Path, reread: Policy) returns (r: Review)
    ensures r == if !NoErrors(reread) then Stopped(AnalysisErrors)
                 else if t.expected.Some? && !Contained(t, reread, at, t.expected.value) then Stopped(UnexpectedChanges)
                 else Reviewed(name, reread)
  {
    hide Contained, InCross, IsExpected, IsFinding;
    var findings := Analyze(reread);
    ErrorsAreListed(reread, findings);
    if exists i :: 0 <= i < |findings| && findings[i].severity == Error {
      return Stopped(AnalysisErrors);
    }
    var want := if t.expected.Some? then t.expected.value else [];
    var probes := ProbeSet([Some(t.live), Some(reread)], want);
    var delta := DiffAuthorization(LivePolicy(t), Some(reread), probes, at);
    var unexpected := Unexpected(delta, want);
    UnexpectedExactness(t, reread, at, want, probes);
    if t.expected.Some? && unexpected != [] {
      assert unexpected[0] in unexpected;
      return Stopped(UnexpectedChanges);
    }
    r := Reviewed(name, reread);
  }

  lemma ErrorsAreListed(p: Policy, findings: seq<Finding>)
    requires IsAnalysis(p, findings)
    ensures NoErrors(p) <==> forall i :: 0 <= i < |findings| ==> findings[i].severity != Error
  {
  }

  // ----- What the outcomes mean -----

  /** A verified install loads as exactly the policy that was reviewed. */
  lemma InstalledIsReviewed(codec: Codec, files: Files, t: Transaction)
    requires Faithful(codec) && Reread(codec, t).Some? && IsInstalled(codec, files, t.livePath, Reread(codec, t).value)
    ensures Parse(codec, files[t.livePath].content) == Reread(codec, t)
  {
  }

  /** And that is the candidate itself, if the candidate was loaded from a file. */
  lemma LoadedCandidateSurvives(codec: Codec, t: Transaction, data: Text)
    requires Faithful(codec) && Parse(codec, data) == Some(t.candidate)
    ensures Reread(codec, t) == Some(t.candidate)
  {
  }

  /** A rolled back file loads as the policy it had before. */
  lemma RestoredIsOld(codec: Codec, content: Text, files: Files, path: Path)
    requires Faithful(codec) && IsRestored(codec, content, files, path)
    ensures Parse(codec, files[path].content) == Parse(codec, content)
  {
  }

  /** What a crash can make of a moment: flushed files survive whole, of others any content may. */
  ghost predicate CrashImage(now: Files, later: Files) {
    && later.Keys == now.Keys
    && forall p :: p in now ==> later[p].mode == now[p].mode && (now[p].synced ==> later[p] == now[p])
  }

  /** What a crash can make of one file. */
  predicate IsImage(f: Option<File>, g: Option<File>) {
    && (f.Some? <==> g.Some?)
    && (f.Some? ==> g.value.mode == f.value.mode && (f.value.synced ==> g == f))
  }

  /** A whole, owner-only file that loads as the policy. */
  predicate IsWhole(codec: Codec, f: Option<File>, p: Option<Policy>) {
    f.Some? && f.value.mode == FILE_MODE && p.Some? && Parse(codec, f.value.content) == p
  }

  /** Crash at any moment of any transaction: the live path holds what was there before, or
      what another process put there, as the crash leaves them, or a whole owner-only file
      that loads as the reviewed policy or as the old one. It never holds part of a file
      that was being installed. */
  lemma CrashLeavesAPolicy(codec: Codec, before: Files, t: Transaction, c: Circumstances, now: Files, later: Files)
    requires Faithful(codec) && Reread(codec, t).Some?
    requires Keeps(now, Allows(codec, before, t, c)) && CrashImage(now, later)
    ensures var live := Lookup(later, t.livePath);
            || IsImage(Lookup(before, t.livePath), live)
            || (c.meddling.Meddled? && IsImage(c.meddling.file, live))
            || IsWhole(codec, live, Reread(codec, t))
            || (t.livePath in before && IsWhole(codec, live, Parse(codec, before[t.livePath].content)))
  {
  }
}
