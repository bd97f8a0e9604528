/**
 The broker: what startup verifies, and how one connection is served
 (internal/broker/broker.go, session.go and response_config.go).
 */
module Broker {
  import opened Bytes
  import opened Consumer
  import opened Protocol
  import opened Authz

  // ----- Response validators -----

  /** Turns raw consumer output into the canonical result, or refuses it. */
  type Canonicalizer = Text -> Option<Text>

  datatype ConfiguredValidator = ConfiguredValidator(
    keys: seq<Text>,
    check: map<Text, Text> -> bool,
    validate: (Text, map<Text, Text>) -> Option<Text>)

  datatype Validators = Validators(plain: map<Text, Canonicalizer>, configured: map<Text, ConfiguredValidator>)

  predicate KeysMatch(want: seq<Text>, got: map<Text, Text>) {
    (forall k :: k in want ==> k in got) && (forall k :: k in got ==> k in want)
  }

  /** No required key is missing, and no key is one the validator does not know. */
  method CheckResponseConfigKeys(want: seq<Text>, got: map<Text, Text>) returns (ok: bool)
    ensures ok <==> KeysMatch(want, got)
  {
    var wantSet: set<Text> := {};
    for i := 0 to |want|
      invariant wantSet == set k | k in want[..i]
      invariant forall k :: k in want[..i] ==> k in got
    {
      assert want[..i + 1] == want[..i] + [want[i]];
      wantSet := wantSet + {want[i]};
      if want[i] !in got {
        return false;
      }
    }
    assert want[..|want|] == want;
    var extra := set k | k in got && k !in wantSet;
    ok := extra == {};
    if k :| k in got && k !in want {
      assert k in extra;
    }
  }

  function ValidatorFor(validators: Validators, name: Text, op: Operation): Option<Canonicalizer> {
    if name in validators.configured then
      var v := validators.configured[name];
      if !KeysMatch(v.keys, op.responseConfig) || !v.check(op.responseConfig) then None
      else Some((raw: Text) => v.validate(raw, op.responseConfig))
    else if name in validators.plain && op.responseConfig == map[] then Some(validators.plain[name])
    else None
  }

  /** A response configuration gets past startup only where something reads it: a
      configured validator with exactly its keys and values it accepts; otherwise there
      must be none. */
  lemma ValidatorForExactness(validators: Validators, name: Text, op: Operation)
    ensures ValidatorFor(validators, name, op).Some? <==>
              if name in validators.configured then
                && (set k | k in validators.configured[name].keys) == op.responseConfig.Keys
                && validators.configured[name].check(op.responseConfig)
              else name in validators.plain && op.responseConfig.Keys == {}
    ensures ValidatorFor(validators, name, op).Some? ==> forall raw: Text ::
              ValidatorFor(validators, name, op).value(raw) ==
                if name in validators.configured then validators.configured[name].validate(raw, op.responseConfig)
                else validators.plain[name](raw)
  {
    assert op.responseConfig.Keys == {} <==> op.responseConfig == map[];
  }

  // ----- Profiles -----

  datatype Inject = Inject(env: Text, envDir: Text, filename: Text)

  /** render fills the profile's template with the fetched values. */
  datatype Profile = Profile(secrets: map<Text, Text>, inject: Inject, render: map<Text, Text> -> Option<Text>)

  const RESERVED_ENV_NAMES: set<Text> :=
    {"PATH", "HOME", "XDG_RUNTIME_DIR", "PARZIVAL_CONFIG_HOME", "LD_PRELOAD", "LD_LIBRARY_PATH", "LD_AUDIT",
     "DYLD_INSERT_LIBRARIES", "DYLD_LIBRARY_PATH", "ENV", "BASH_ENV", "SHELL"}

  predicate ReservedName(name: Text) {
    name in RESERVED_ENV_NAMES || "BAO_" <= name || "PARZIVAL_" <= name
  }

  predicate InjectAllowed(inject: Inject) {
    (inject.env == [] || !ReservedName(inject.env)) && (inject.envDir == [] || !ReservedName(inject.envDir))
  }

  // ----- Startup -----

  /** Everything newServer reads: the definition files, whether each path is trusted,
      the profiles and the authorization file, each None where it does not load. */
  datatype Startup = Startup(
    files: seq<Option<Definition>>,
    compile: Compiler,
    verify: Text -> bool,
    loadProfile: Text -> Option<Profile>,
    authzPath: Text,
    authz: Option<AuthzFile>,
    validators: Validators)

  /** A server's state once it has started. */
  datatype Setup = Setup(
    defs: map<Text, Definition>, profiles: map<Text, Profile>, authz: AuthzFile, validators: Validators)

  function DefinitionPath(name: Text): Text { "consumers/" + name + ".json" }

  function ProfilePath(name: Text): Text { "profiles/" + name + ".json" }

  predicate DefinitionVerified(st: Startup, name: Text, def: Definition) {
    && st.verify(DefinitionPath(name))
    && st.verify(def.executable)
    && forall op :: op in def.operations ==> ValidatorFor(st.validators, name + "." + op, def.operations[op]).Some?
  }

  predicate ProfileVerified(st: Startup, name: Text) {
    st.loadProfile(name).Some? && st.verify(ProfilePath(name)) && InjectAllowed(st.loadProfile(name).value.inject)
  }

  predicate AuthzVerified(st: Startup, defs: map<Text, Definition>) {
    st.authz.Some? && ValidFile(st.authz.value) && st.verify(st.authzPath) && Validate(st.authz.value, defs)
  }

  /** The whole trust root. */
  ghost predicate Verified(st: Startup, defs: map<Text, Definition>) {
    && defs.Keys != {}
    && (forall n :: n in defs ==> DefinitionVerified(st, n, defs[n]))
    && (forall n :: n in defs ==> ProfileVerified(st, defs[n].profile))
    && AuthzVerified(st, defs)
  }

  ghost predicate AllLoad(st: Startup) { Loadable(st.files, |st.files|, st.compile) }

  ghost function LoadedDefs(st: Startup): map<Text, Definition>
    requires AllLoad(st)
  {
    Loaded(st.files, |st.files|, st.compile)
  }

  /** What every request may rely on once the server has started. */
  ghost predicate Ready(s: Setup) {
    && ValidFile(s.authz)
    && Validate(s.authz, s.defs)
    && (forall n :: n in s.defs ==>
      s.defs[n].profile in s.profiles && InjectAllowed(s.profiles[s.defs[n].profile].inject))
    && (forall n :: n in s.defs ==> forall o :: o in s.defs[n].operations ==> OperationReady(s, n, o))
  }

  ghost predicate OperationReady(s: Setup, name: Text, opName: Text)
    requires name in s.defs && opName in s.defs[name].operations
  {
    var op := s.defs[name].operations[opName];
    && ValidatorFor(s.validators, name + "." + opName, op).Some?
    && (forall i :: 0 <= i < |op.argv| ==> Fillable(op.argv[i], op))
    && (forall n :: n in op.inputs ==> ValidName(n))
  }

  /** Every file the server read, and every program it may run, is trusted, and its
      profiles are those that were read. */
  ghost predicate IsTrusted(st: Startup, s: Setup) {
    && st.verify(st.authzPath)
    && forall n :: n in s.defs ==>
         && st.verify("consumers/" + n + ".json")
         && st.verify(s.defs[n].executable)
         && st.verify("profiles/" + s.defs[n].profile + ".json")
         && s.defs[n].profile in s.profiles
         && st.loadProfile(s.defs[n].profile) == Some(s.profiles[s.defs[n].profile])
  }

  /** The trust root verifies exactly when there is a definition; every definition's file,
      program and profile's file are trusted, its operations have validators and its profile
      loads and injects no reserved variable; and the authorization file is valid, trusted
      and names only declared operations. */
  lemma VerifiedExactness(st: Startup, defs: map<Text, Definition>)
    ensures Verified(st, defs) <==>
              && (exists n :: n in defs)
              && (forall n :: n in defs ==>
                    && st.verify("consumers/" + n + ".json")
                    && st.verify(defs[n].executable)
                    && st.verify("profiles/" + defs[n].profile + ".json")
                    && st.loadProfile(defs[n].profile).Some?
                    && InjectAllowed(st.loadProfile(defs[n].profile).value.inject))
              && (forall n: Text, o: Text :: n in defs && o in defs[n].operations ==>
                    ValidatorFor(st.validators, n + "." + o, defs[n].operations[o]).Some?)
              && st.verify(st.authzPath)
              && st.authz.Some? && ValidFile(st.authz.value) && Validate(st.authz.value, defs)
  {
    hide ValidatorFor, InjectAllowed, ValidFile, Validate;
    assert defs.Keys != {} <==> exists n :: n in defs;
  }

  lemma VerifiedIsTrusted(st: Startup, s: Setup)
    requires Verified(st, s.defs)
    requires forall n :: n in s.defs ==> s.defs[n].profile in s.profiles
    requires forall p :: p in s.profiles ==> ProfileVerified(st, p) && st.loadProfile(p) == Some(s.profiles[p])
    ensures IsTrusted(st, s)
  {
    hide ValidatorFor, InjectAllowed, ValidFile, Validate;
  }

  /** Starts a server, or refuses: it starts exactly when every part of the trust root
      verifies, and then it is ready and trusted. */
  method NewServer(st: Startup) returns (server: Option<Setup>)
    ensures server.Some? <==> AllLoad(st) && Verified(st, LoadedDefs(st))
    ensures server.Some? ==> Ready(server.value) && server.value.defs == LoadedDefs(st)
    ensures server.Some? ==> st.authz == Some(server.value.authz) && server.value.validators == st.validators
    ensures server.Some? ==> IsTrusted(st, server.value)
  {
    hide DefinitionVerified, ProfileVerified, AuthzVerified, Loadable, Loaded, Ready, IsTrusted;
    var loaded := LoadAll(st.files, st.compile);
    if loaded.None? {
      return None;
    }
    var defs := loaded.value;
    if defs.Keys == {} {
      return None;
    }
    var rest := defs.Keys;
    while rest != {}
      invariant rest <= defs.Keys
      invariant forall n :: n in defs && n !in rest ==> DefinitionVerified(st, n, defs[n])
    {
      var n :| n in rest;
      var verified := VerifyDefinition(st, n, defs[n]);
      if !verified {
        return None;
      }
      rest := rest - {n};
    }
    var profiles: map<Text, Profile> := map[];
    rest := defs.Keys;
    while rest != {}
      invariant rest <= defs.Keys
      invariant forall n :: n in defs && n !in rest ==> defs[n].profile in profiles
      invariant forall p :: p in profiles ==> ProfileVerified(st, p) && st.loadProfile(p) == Some(profiles[p])
    {
      var n :| n in rest;
      rest := rest - {n};
      var p := defs[n].profile;
      if p !in profiles {
        if !ProfileVerified(st, p) {
          return None;
        }
        ProfileLoads(st, p);
        profiles := profiles[p := st.loadProfile(p).value];
      }
    }
    if !AuthzVerified(st, defs) {
      return None;
    }
    AuthzLoads(st, defs);
    server := Some(Setup(defs, profiles, st.authz.value, st.validators));
    VerifiedIsReady(st, server.value);
    VerifiedIsTrusted(st, server.value);
  }

  /** newServer's first loop body: the file, the executable, and a validator for every operation. */
  method VerifyDefinition(st: Startup, name: Text, def: Definition) returns (ok: bool)
    ensures ok <==> DefinitionVerified(st, name, def)
  {
    hide ValidatorFor;
    if !st.verify(DefinitionPath(name)) || !st.verify(def.executable) {
      return false;
    }
    var rest := def.operations.Keys;
    while rest != {}
      invariant rest <= def.operations.Keys
      invariant forall op :: op in def.operations && op !in rest ==>
                  ValidatorFor(st.validators, name + "." + op, def.operations[op]).Some?
    {
      var op :| op in rest;
      if ValidatorFor(st.validators, name + "." + op, def.operations[op]).None? {
        return false;
      }
      rest := rest - {op};
    }
    return true;
  }

  lemma ProfileLoads(st: Startup, p: Text)
    requires ProfileVerified(st, p)
    ensures st.loadProfile(p).Some?
  {
  }

  lemma AuthzLoads(st: Startup, defs: map<Text, Definition>)
    requires AuthzVerified(st, defs)
    ensures st.authz.Some?
  {
  }

  lemma VerifiedIsReady(st: Startup, s: Setup)
    requires AllLoad(st) && s.defs == LoadedDefs(st) && Verified(st, s.defs)
    requires st.authz == Some(s.authz) && st.validators == s.validators
    requires forall n :: n in s.defs ==> s.defs[n].profile in s.profiles
    requires forall p :: p in s.profiles ==> ProfileVerified(st, p) && st.loadProfile(p) == Some(s.profiles[p])
    ensures Ready(s)
  {
    hide ValidatorFor, Validate, ValidFile, InjectAllowed, OperationReady, Loadable, Loaded;
    forall n, o | n in s.defs && o in s.defs[n].operations ensures OperationReady(s, n, o) {
      VerifiedOperationIsReady(st, s, n, o);
    }
    forall n | n in s.defs ensures InjectAllowed(s.profiles[s.defs[n].profile].inject) {
      assert ProfileVerified(st, s.defs[n].profile);
    }
    AuthzIsValid(st, s);
  }

  lemma AuthzIsValid(st: Startup, s: Setup)
    requires AuthzVerified(st, s.defs) && st.authz == Some(s.authz)
    ensures ValidFile(s.authz) && Validate(s.authz, s.defs)
  {
  }

  lemma VerifiedOperationIsReady(st: Startup, s: Setup, n: Text, o: Text)
    requires AllLoad(st) && s.defs == LoadedDefs(st) && st.validators == s.validators
    requires n in s.defs && o in s.defs[n].operations && DefinitionVerified(st, n, s.defs[n])
    ensures OperationReady(s, n, o)
  {
    hide ValidatorFor, Fillable, ValidDefinition, CompiledDefinition;
    LoadedIsExact(st.files, |st.files|, st.compile, n);
    var i :| 0 <= i < |st.files| && st.files[i].value.name == n;
    LoadedTemplatesFill(st.files[i].value, st.compile, o);
  }

  lemma LoadedTemplatesFill(d: Definition, compile: Compiler, o: Text)
    requires ValidDefinition(d, compile) && o in CompiledDefinition(d, compile).operations
    ensures var op := CompiledDefinition(d, compile).operations[o];
            && (forall i :: 0 <= i < |op.argv| ==> Fillable(op.argv[i], op))
            && (forall n :: n in op.inputs ==> ValidName(n))
  {
    hide ValidName;
    ValidatedTemplatesFill(d.operations[o], compile);
  }

  // ----- One connection -----

  /** What the environment does during one connection: the peer's uid and its frame,
      the order in which the profile's secrets are visited, what the store answers for
      each, and whether each later step succeeds. */
  datatype Conn = Conn(
    peer: Option<Uid>,
    readable: bool,
    request: Option<Request>,
    order: set<Text> -> seq<Text>,
    fetch: Text -> FetchOutcome,
    dirCreated: bool,
    credWritten: bool,
    result: LaunchResult,
    auditDurable: bool,
    written: bool)

  datatype FetchOutcome = BadRef | NoStore | GetFailed | Got(value: Text)

  datatype LaunchResult = LaunchResult(stdout: Text, truncated: bool, timedOut: bool, exitFailed: bool)

  /** order visits each name of a set once, as ranging over a map does. */
  ghost predicate Visits(order: seq<Text>, names: set<Text>) {
    && (forall n :: n in order <==> n in names)
    && forall i, j :: 0 <= i < j < |order| ==> order[i] != order[j]
  }

  function OrderOf(c: Conn, profile: Profile): seq<Text> { c.order(profile.secrets.Keys) }

  function Outcome(c: Conn, name: Text): FetchOutcome { c.fetch(name) }

  function Rendering(profile: Profile, values: map<Text, Text>): Option<Text> { profile.render(values) }

  datatype AuditRecord = AuditRecord(
    peer: Uid, operation: Text, inputNames: seq<Text>, decision: Status, outcome: Option<Code>)

  datatype Event =
    | InvariantViolation
    | MissingProfile
    | Fetch(ref: Text, got: bool)
    | Render(rendered: bool)
    | CreateDir(created: bool)
    | WriteCredential(stored: bool)
    | Run(argv: seq<Text>)
    | CleanDir
    | Audit(record: AuditRecord, durable: bool)
    | Respond(response: Response, sent: bool)

  function Classify(validators: Validators, name: Text, op: Operation, result: LaunchResult): Response {
    if result.timedOut then RESP_TIMEOUT
    else if result.exitFailed then RESP_CONSUMER_FAILED
    else if result.truncated then RESP_RESULT_TOO_LARGE
    else
      match ValidatorFor(validators, name, op)
      case None => RESP_CONSUMER_FAILED
      case Some(validator) =>
        match validator(result.stdout)
        case None => RESP_CONSUMER_FAILED
        case Some(canonical) => OkResponse(canonical)
  }

  /** What a finished run yields: the validator's canonical form of its output, and only
      if it ended in time, without failure and within the size limit. */
  function Canonical(validators: Validators, name: Text, op: Operation, result: LaunchResult): Option<Text> {
    if result.timedOut || result.exitFailed || result.truncated || ValidatorFor(validators, name, op).None? then None
    else ValidatorFor(validators, name, op).value(result.stdout)
  }

  /** Each way a run can end has its own answer, the earlier taking precedence. */
  lemma ClassifyExactness(validators: Validators, name: Text, op: Operation, result: LaunchResult)
    ensures var resp := Classify(validators, name, op, result);
            var validator := ValidatorFor(validators, name, op);
            if result.timedOut then resp == Response(StatusError, [], Some(ErrorBody(TimedOut, None)))
            else if result.exitFailed then resp == Response(StatusError, [], Some(ErrorBody(ConsumerFailed, None)))
            else if result.truncated then resp == Response(StatusError, [], Some(ErrorBody(ResultTooLarge, None)))
            else if validator.None? || validator.value(result.stdout).None? then
              resp == Response(StatusError, [], Some(ErrorBody(ConsumerFailed, None)))
            else resp == Response(StatusOk, validator.value(result.stdout).value, None)
  {
  }

  /** OK carries the canonical form and never the raw output. */
  lemma ClassifyIsCanonical(validators: Validators, name: Text, op: Operation, result: LaunchResult)
    ensures var resp, canonical := Classify(validators, name, op, result), Canonical(validators, name, op, result);
            if canonical.Some? then resp == OkResponse(canonical.value) else resp.status == StatusError
  {
  }

  /** finish: the audit record first, then the response, which is no longer OK if the
      record could not be made durable. */
  function Finish(c: Conn, record: AuditRecord, resp: Response): seq<Event> {
    var code := if resp.error.Some? then Some(resp.error.value.code) else None;
    var sent := if !c.auditDurable && resp.status == StatusOk then RESP_UNAVAILABLE else resp;
    [Audit(record.(decision := resp.status, outcome := code), c.auditDurable), Respond(sent, c.written)]
  }

  /** These steps, and no others, end a request: one attempt at a record of this peer,
      operation, input names, decision and error code; then one response. OK is answered
      only if it was decided and its record is durable, and any other answer is sent as
      decided; an OK without a record becomes unavailable. */
  lemma FinishExactness(c: Conn, record: AuditRecord, resp: Response, events: seq<Event>)
    ensures events == Finish(c, record, resp) <==>
              && |events| == 2
              && events[0].Audit? && events[1].Respond?
              && events[0].durable == c.auditDurable && events[1].sent == c.written
              && events[0].record.peer == record.peer
              && events[0].record.operation == record.operation
              && events[0].record.inputNames == record.inputNames
              && events[0].record.decision == resp.status
              && (events[0].record.outcome.Some? <==> resp.error.Some?)
              && (resp.error.Some? ==> events[0].record.outcome.value == resp.error.value.code)
              && (events[1].response.status == StatusOk <==> resp.status == StatusOk && events[0].durable)
              && (events[0].durable || resp.status != StatusOk ==> events[1].response == resp)
              && (!events[0].durable && resp.status == StatusOk ==> events[1].response == RESP_UNAVAILABLE)
  {
    if |events| == 2 && events[0].Audit? && events[1].Respond? {
      assert events == [events[0], events[1]];
      assert events[0] == Audit(events[0].record, events[0].durable);
      assert events[1] == Respond(events[1].response, events[1].sent);
    }
  }

  /** Fetching the first n secrets: the store calls made, and the values in the order
      visited unless one failed. */
  function FetchRun(profile: Profile, names: seq<Text>, c: Conn, n: nat): (seq<Event>, Option<seq<Text>>)
    requires n <= |names| && forall k :: k in names ==> k in profile.secrets
  {
    if n == 0 then ([], Some([]))
    else
      var (events, values) := FetchRun(profile, names, c, n - 1);
      var name := names[n - 1];
      if values.None? then (events, None)
      else
        (events + StoreCall(profile.secrets[name], Outcome(c, name)),
         if Outcome(c, name).Got? then Some(values.value + [Outcome(c, name).value]) else None)
  }

  ghost function FetchEvents(profile: Profile, c: Conn): seq<Event>
    requires Visits(OrderOf(c, profile), profile.secrets.Keys)
  {
    FetchRun(profile, OrderOf(c, profile), c, |OrderOf(c, profile)|).0
  }

  ghost function FetchValues(profile: Profile, c: Conn): (values: Option<seq<Text>>)
    requires Visits(OrderOf(c, profile), profile.secrets.Keys)
  {
    FetchRun(profile, OrderOf(c, profile), c, |OrderOf(c, profile)|).1
  }

  /** The map a profile's template is rendered with. */
  function Named(names: seq<Text>, values: seq<Text>): map<Text, Text>
    requires |names| == |values|
  {
    if names == [] then map[]
    else Named(names[..|names| - 1], values[..|names| - 1])[names[|names| - 1] := values[|names| - 1]]
  }

  lemma {:induction false} FetchLength(profile: Profile, names: seq<Text>, c: Conn, n: nat)
    requires n <= |names| && forall k :: k in names ==> k in profile.secrets
    ensures FetchRun(profile, names, c, n).1.Some? ==> |FetchRun(profile, names, c, n).1.value| == n
  {
    if n > 0 {
      FetchLength(profile, names, c, n - 1);
    }
  }

  predicate AllGot(profile: Profile, c: Conn) { forall n :: n in profile.secrets ==> Outcome(c, n).Got? }

  function SecretValues(profile: Profile, c: Conn): map<Text, Text>
    requires AllGot(profile, c)
  {
    map n | n in profile.secrets :: Outcome(c, n).value
  }

  lemma {:induction false} FetchIsExact(profile: Profile, names: seq<Text>, c: Conn, n: nat)
    requires n <= |names| && forall k :: k in names ==> k in profile.secrets
    ensures var values := FetchRun(profile, names, c, n).1;
            && (values.Some? <==> forall k :: 0 <= k < n ==> Outcome(c, names[k]).Got?)
            && (values.Some? ==> |values.value| == n)
            && (values.Some? ==> forall k :: 0 <= k < n ==> values.value[k] == Outcome(c, names[k]).value)
  {
    if n > 0 {
      FetchIsExact(profile, names, c, n - 1);
    }
  }

  /** The stores are asked for each name's own reference, in the order visited, up to the
      first that does not answer; one whose reference is refused is not asked. */
  ghost predicate AsksInOrder(profile: Profile, names: seq<Text>, c: Conn, n: nat, events: seq<Event>)
    requires n <= |names| && forall k :: k in names ==> k in profile.secrets
  {
    exists m: nat :: AsksUpTo(profile, names, c, n, m, events)
  }

  ghost predicate AsksUpTo(profile: Profile, names: seq<Text>, c: Conn, n: nat, m: nat, events: seq<Event>)
    requires n <= |names| && forall k :: k in names ==> k in profile.secrets
  {
    && m <= n && m <= |events|
    && (forall k :: 0 <= k < m ==> Outcome(c, names[k]).Got? && events[k] == Fetch(profile.secrets[names[k]], true))
    && if m == n then |events| == n
       else if Outcome(c, names[m]).GetFailed? then
         |events| == m + 1 && events[m] == Fetch(profile.secrets[names[m]], false)
       else |events| == m && !Outcome(c, names[m]).Got?
  }

  lemma {:induction false} FetchAsksInOrder(profile: Profile, names: seq<Text>, c: Conn, n: nat)
    requires n <= |names| && forall k :: k in names ==> k in profile.secrets
    ensures AsksInOrder(profile, names, c, n, FetchRun(profile, names, c, n).0)
  {
    hide FetchRun, AsksUpTo;
    if n == 0 {
      AsksNothing(profile, names, c);
    } else {
      FetchAsksInOrder(profile, names, c, n - 1);
      FetchIsExact(profile, names, c, n - 1);
      var events := FetchRun(profile, names, c, n - 1).0;
      var m: nat :| AsksUpTo(profile, names, c, n - 1, m, events);
      if FetchRun(profile, names, c, n - 1).1.Some? {
        FetchStep(profile, names, c, n - 1);
        AsksOneMore(profile, names, c, n - 1, m, events);
      } else {
        FailureSticks(profile, names, c, n - 1, n);
        AsksNoMore(profile, names, c, n - 1, m, events);
      }
    }
  }

  lemma AsksNothing(profile: Profile, names: seq<Text>, c: Conn)
    requires forall k :: k in names ==> k in profile.secrets
    ensures AsksInOrder(profile, names, c, 0, FetchRun(profile, names, c, 0).0)
  {
    assert AsksUpTo(profile, names, c, 0, 0, []);
  }

  lemma AsksNoMore(profile: Profile, names: seq<Text>, c: Conn, n: nat, m: nat, events: seq<Event>)
    requires n < |names| && forall k :: k in names ==> k in profile.secrets
    requires AsksUpTo(profile, names, c, n, m, events)
    requires exists k :: 0 <= k < n && !Outcome(c, names[k]).Got?
    ensures AsksInOrder(profile, names, c, n + 1, events)
  {
    hide Outcome;
    assert AsksUpTo(profile, names, c, n + 1, m, events);
  }

  lemma AsksOneMore(profile: Profile, names: seq<Text>, c: Conn, n: nat, m: nat, events: seq<Event>)
    requires n < |names| && forall k :: k in names ==> k in profile.secrets
    requires AsksUpTo(profile, names, c, n, m, events)
    requires forall k :: 0 <= k < n ==> Outcome(c, names[k]).Got?
    ensures AsksInOrder(profile, names, c, n + 1, events + StoreCall(profile.secrets[names[n]], Outcome(c, names[n])))
  {
    var now := events + StoreCall(profile.secrets[names[n]], Outcome(c, names[n]));
    var k: nat := if Outcome(c, names[n]).Got? then n + 1 else n;
    hide Outcome;
    assert m == n;
    assert AsksUpTo(profile, names, c, n + 1, k, now);
  }

  lemma {:induction false} NamedIsExact(names: seq<Text>, values: seq<Text>)
    requires |names| == |values| && forall i, j :: 0 <= i < j < |names| ==> names[i] != names[j]
    ensures forall n :: n in Named(names, values) <==> n in names
    ensures forall i :: 0 <= i < |names| ==>
              names[i] in Named(names, values) && Named(names, values)[names[i]] == values[i]
  {
    if names != [] {
      var rest, last := names[..|names| - 1], names[|names| - 1];
      NamedIsExact(rest, values[..|names| - 1]);
      assert names == rest + [last];
    }
  }

  lemma NamedIsSecretValues(profile: Profile, c: Conn, names: seq<Text>, values: seq<Text>)
    requires Visits(names, profile.secrets.Keys) && AllGot(profile, c) && |values| == |names|
    requires forall k :: 0 <= k < |names| ==> values[k] == Outcome(c, names[k]).value
    ensures Named(names, values) == SecretValues(profile, c)
  {
    hide Outcome, Named;
    NamedIsExact(names, values);
    assert Named(names, values).Keys == SecretValues(profile, c).Keys;
  }

  /** The fetch succeeds exactly when every store answers, and the template is rendered
      with each name's own value, in whatever order the names were visited. */
  lemma RenderingIgnoresOrder(profile: Profile, c: Conn)
    requires Visits(OrderOf(c, profile), profile.secrets.Keys)
    ensures FetchValues(profile, c).Some? <==> AllGot(profile, c)
    ensures AllGot(profile, c) ==> RenderedText(profile, c) == Rendering(profile, SecretValues(profile, c))
  {
    hide FetchRun, Rendering, Named, SecretValues, Outcome, OrderOf;
    var names := OrderOf(c, profile);
    FetchIsExact(profile, names, c, |names|);
    if AllGot(profile, c) {
      NamedIsSecretValues(profile, c, names, FetchValues(profile, c).value);
    }
  }

  /** The store is asked only for a reference that parses and names a known store. */
  function StoreCall(ref: Text, outcome: FetchOutcome): seq<Event> {
    match outcome
    case BadRef => []
    case NoStore => []
    case GetFailed => [Fetch(ref, false)]
    case Got(_) => [Fetch(ref, true)]
  }

  /** Steps 9 to 12: the runtime directory, the consumer, and the cleanup that must
      come before the response. */
  function Deliver(validators: Validators, c: Conn, name: Text, op: Operation, argv: seq<Text>):
    (seq<Event>, Response)
  {
    if !c.dirCreated then ([CreateDir(false)], RESP_UNAVAILABLE)
    else if !c.credWritten then ([CreateDir(true), WriteCredential(false), CleanDir], RESP_UNAVAILABLE)
    else ([CreateDir(true), WriteCredential(true), Run(argv), CleanDir], Classify(validators, name, op, c.result))
  }

  ghost function RenderedText(profile: Profile, c: Conn): Option<Text>
    requires Visits(OrderOf(c, profile), profile.secrets.Keys) && FetchValues(profile, c).Some?
  {
    FetchLength(profile, OrderOf(c, profile), c, |OrderOf(c, profile)|);
    Rendering(profile, Named(OrderOf(c, profile), FetchValues(profile, c).value))
  }

  /** Steps 8 to 12, once a request is authorized and its vector built. */
  ghost function Serve(s: Setup, c: Conn, profile: Profile, name: Text, op: Operation, argv: seq<Text>):
    (seq<Event>, Response)
    requires Visits(OrderOf(c, profile), profile.secrets.Keys)
  {
    var (fetches, values) := (FetchEvents(profile, c), FetchValues(profile, c));
    if values.None? then (fetches, RESP_UNAVAILABLE)
    else if RenderedText(profile, c).None? then (fetches + [Render(false)], RESP_UNAVAILABLE)
    else
      var (events, resp) := Deliver(s.validators, c, name, op, argv);
      (fetches + [Render(true)] + events, resp)
  }

  /** The record so far, before finish fills in the decision. */
  function Record(uid: Uid, request: Option<Request>): AuditRecord {
    if request.None? then AuditRecord(uid, [], [], StatusInvalid, None)
    else AuditRecord(uid, request.value.operation, SortedKeys(request.value.inputs.Keys), StatusInvalid, None)
  }

  /** A record names the inputs a client sent, each once and in order, and no value. */
  lemma RecordHoldsNames(uid: Uid, request: Request)
    ensures var r := Record(uid, Some(request));
            && r.peer == uid && r.operation == request.operation && Ascending(r.inputNames)
            && forall n: Text :: n in r.inputNames <==> n in request.inputs
  {
    SortedKeysAscend(request.inputs.Keys);
    hide SortedKeys, AtMost;
  }

  /** The answer to a request that never reaches authorization. */
  function Screened(request: Option<Request>): Option<Response> {
    if request.None? then Some(RESP_MALFORMED)
    else if request.value.protocol <= 0 then Some(RESP_MALFORMED)
    else if request.value.protocol != PROTOCOL_VERSION then Some(RESP_UNSUPPORTED_PROTOCOL)
    else if request.value.operation == [] then Some(RESP_MALFORMED)
    else if SplitOperationRef(request.value.operation).None? then Some(RESP_MALFORMED)
    else None
  }

  ghost predicate Ordered(c: Conn) {
    forall names: set<Text> :: Visits(c.order(names), names)
  }

  /** Everything one connection does, in order. */
  ghost function Session(s: Setup, c: Conn): seq<Event>
    requires Ordered(c)
  {
    if c.peer.None? || !c.readable then []
    else
      var record := Record(c.peer.value, c.request);
      var screened := Screened(c.request);
      if screened.Some? then Finish(c, record, screened.value)
      else
        var request := c.request.value;
        if !Decide(s.authz, c.peer.value, request.operation) then Finish(c, record, RESP_DENIED)
        else
          var (name, opName) := SplitOperationRef(request.operation).value;
          if name !in s.defs || opName !in s.defs[name].operations then
            [InvariantViolation] + Finish(c, record, RESP_UNAVAILABLE)
          else
            var built := ArgvOf(s.defs[name], opName, request.inputs);
            if !built.Argv? then Finish(c, record, RespInvalidInput(built))
            else if s.defs[name].profile !in s.profiles then [MissingProfile]
            else
              var (events, resp) := Serve(s, c, s.profiles[s.defs[name].profile], request.operation,
                                          s.defs[name].operations[opName], built.argv);
              events + Finish(c, record, resp)
  }

  ghost predicate AllZero(b: array<Byte>)
    reads b
  {
    forall i :: 0 <= i < b.Length ==> b[i] as int == 0
  }

  /** secret.Zero. */
  method Zero(b: array<Byte>)
    modifies b
    ensures AllZero(b)
    ensures forall x: array<Byte> :: x.Length > 0 ==> !fresh(x)
  {
    for i := 0 to b.Length
      invariant forall k :: 0 <= k < i ==> b[k] as int == 0
      invariant forall x: array<Byte> :: x.Length > 0 ==> !fresh(x)
    {
      b[i] := 0 as char;
    }
  }

  /** zeroAll: every buffer fetched so far. */
  method ZeroAll(secrets: seq<array<Byte>>)
    modifies secrets
    ensures forall i :: 0 <= i < |secrets| ==> AllZero(secrets[i])
    ensures forall b: array<Byte> :: b.Length > 0 ==> !fresh(b)
  {
    for i := 0 to |secrets|
      invariant forall k :: 0 <= k < i ==> AllZero(secrets[k])
      invariant forall b: array<Byte> :: b.Length > 0 ==> !fresh(b)
    {
      Zero(secrets[i]);
    }
  }

  /** The deferred calls of handleConn, last first. */
  method WipeAll(rendered: array<Byte>, secrets: seq<array<Byte>>)
    requires rendered !in secrets
    modifies rendered, secrets
    ensures forall i :: 0 <= i < |secrets| ==> AllZero(secrets[i])
    ensures AllZero(rendered)
    ensures forall b: array<Byte> :: b.Length > 0 ==> !fresh(b)
  {
    Zero(rendered);
    ZeroAll(secrets);
  }

  class Server {
    const setup: Setup

    /** What has been done. */
    ghost var trace: seq<Event>

    constructor (setup: Setup)
      ensures this.setup == setup && trace == []
    {
      this.setup := setup;
      trace := [];
    }

    /** finish: the audit attempt, then the response. */
    method FinishRequest(c: Conn, record: AuditRecord, resp: Response) returns (ghost events: seq<Event>)
      ensures events == Finish(c, record, resp)
      ensures forall b: array<Byte> :: b.Length > 0 ==> !fresh(b)
    {
      var code := if resp.error.Some? then Some(resp.error.value.code) else None;
      var rec := record.(decision := resp.status, outcome := code);
      var sent := resp;
      events := [Audit(rec, c.auditDurable)];
      if !c.auditDurable {
        if resp.status == StatusOk {
          sent := RESP_UNAVAILABLE;
        }
      }
      events := events + [Respond(sent, c.written)];
    }

    /** Fetches what the profile declares, in the order its names are visited. On success
        the buffers are all that were made; on any failure every buffer made is zero. */
    method FetchSecrets(profile: Profile, c: Conn) returns (secrets: Option<seq<array<Byte>>>, ghost events: seq<Event>)
      requires Visits(OrderOf(c, profile), profile.secrets.Keys)
      ensures events == FetchEvents(profile, c)
      ensures secrets.None? <==> FetchValues(profile, c).None?
      ensures secrets.Some? ==> Holds(secrets.value, FetchValues(profile, c).value)
      ensures secrets.Some? ==> forall i :: 0 <= i < |secrets.value| ==> fresh(secrets.value[i])
      ensures secrets.Some? ==> forall b: array<Byte> :: b.Length > 0 && fresh(b) ==> b in secrets.value
      ensures secrets.None? ==> forall b: array<Byte> :: b.Length > 0 && fresh(b) ==> AllZero(b)
    {
      hide *;
      var names := OrderOf(c, profile);
      var m: seq<array<Byte>> := [];
      events := [];
      FetchStarts(profile, names, c);
      for i := 0 to |names|
        invariant FetchRun(profile, names, c, i).1.Some?
        invariant events == FetchRun(profile, names, c, i).0
        invariant Holds(m, FetchRun(profile, names, c, i).1.value)
        invariant forall k :: 0 <= k < |m| ==> fresh(m[k])
        invariant forall b: array<Byte> :: b.Length > 0 && fresh(b) ==> b in m
      {
        FetchStep(profile, names, c, i);
        var val, calls := FetchOne(profile.secrets[names[i]], Outcome(c, names[i]));
        events := events + calls;
        if val.None? {
          ZeroAll(m);
          FetchStops(profile, names, c, i + 1);
          return None, events;
        }
        HoldsOneMore(m, FetchRun(profile, names, c, i).1.value, val.value);
        m := m + [val.value];
      }
      FetchEnds(profile, names, c);
      return Some(m), events;
    }

    /** One turn of fetchSecrets: parse the reference, resolve its store, ask it. */
    method FetchOne(ref: Text, outcome: FetchOutcome) returns (val: Option<array<Byte>>, ghost calls: seq<Event>)
      ensures calls == StoreCall(ref, outcome)
      ensures val.Some? <==> outcome.Got?
      ensures val.Some? ==> fresh(val.value) && val.value[..] == outcome.value
      ensures forall b: array<Byte> :: b.Length > 0 && fresh(b) ==> val == Some(b)
    {
      if outcome.BadRef? || outcome.NoStore? {
        return None, [];
      }
      if outcome.GetFailed? {
        return None, [Fetch(ref, false)];
      }
      var b := NewBuffer(outcome.value);
      return Some(b), [Fetch(ref, true)];
    }

    /** handleConn. Wiping comes last, after the response, as the deferred calls do: of all
        the buffers made on the way, whichever they were, none holds anything any more. */
    method HandleConn(c: Conn)
      requires Ordered(c)
      modifies this
      ensures trace == old(trace) + Session(setup, c)
      ensures forall b: array<Byte> :: b.Length > 0 && fresh(b) ==> AllZero(b)
    {
      ghost var events := Handle(c);
      trace := trace + events;
    }

    method Handle(c: Conn) returns (ghost events: seq<Event>)
      requires Ordered(c)
      ensures events == Session(setup, c)
      ensures forall b: array<Byte> :: b.Length > 0 && fresh(b) ==> AllZero(b)
    {
      hide Serve, Finish, ArgvOf, Decide, SplitOperationRef, SortedKeys, Visits, AllZero;
      events := [];
      if c.peer.None? {
        return;
      }
      if !c.readable {
        return;
      }
      var record := AuditRecord(c.peer.value, [], [], StatusInvalid, None);
      if c.request.None? {
        events := FinishRequest(c, record, RESP_MALFORMED);
        return;
      }
      var request := c.request.value;
      record := record.(operation := request.operation, inputNames := SortedKeys(request.inputs.Keys));
      if request.protocol <= 0 {
        events := FinishRequest(c, record, RESP_MALFORMED);
        return;
      }
      if request.protocol != PROTOCOL_VERSION {
        events := FinishRequest(c, record, RESP_UNSUPPORTED_PROTOCOL);
        return;
      }
      if request.operation == [] {
        events := FinishRequest(c, record, RESP_MALFORMED);
        return;
      }
      var ref := SplitOperationRef(request.operation);
      if ref.None? {
        events := FinishRequest(c, record, RESP_MALFORMED);
        return;
      }
      if !Decide(setup.authz, c.peer.value, request.operation) {
        events := FinishRequest(c, record, RESP_DENIED);
        return;
      }
      var (name, opName) := ref.value;
      if name !in setup.defs || opName !in setup.defs[name].operations {
        ghost var last := FinishRequest(c, record, RESP_UNAVAILABLE);
        events := [InvariantViolation] + last;
        return;
      }
      var def := setup.defs[name];
      var built := BuildArgv(def, opName, request.inputs);
      if !built.Argv? {
        events := FinishRequest(c, record, RespInvalidInput(built));
        return;
      }
      if def.profile !in setup.profiles {
        events := [MissingProfile];
        return;
      }
      events := ServeRequest(c, record, setup.profiles[def.profile], request.operation, def.operations[opName],
        built.argv);
    }

    /** handleConn from step 8 on. */
    method ServeRequest(c: Conn, record: AuditRecord, profile: Profile, name: Text, op: Operation, argv: seq<Text>)
      returns (ghost events: seq<Event>)
      requires Visits(OrderOf(c, profile), profile.secrets.Keys)
      ensures var (served, resp) := Serve(setup, c, profile, name, op, argv);
              events == served + Finish(c, record, resp)
      ensures forall b: array<Byte> :: b.Length > 0 && fresh(b) ==> AllZero(b)
    {
      ServeUnfolds(setup, c, profile, name, op, argv);
      hide *;
      var secrets, fetches := FetchSecrets(profile, c);
      if secrets.None? {
        ghost var last := FinishRequest(c, record, RESP_UNAVAILABLE);
        return fetches + last;
      }
      var values := Contents(secrets.value);
      assert values == FetchValues(profile, c).value;
      var rendering := Rendering(profile, Named(OrderOf(c, profile), values));
      if rendering.None? {
        ghost var last := FinishRequest(c, record, RESP_UNAVAILABLE);
        ZeroAll(secrets.value);
        assert Serve(setup, c, profile, name, op, argv) == (fetches + [Render(false)], RESP_UNAVAILABLE);
        return fetches + [Render(false)] + last;
      }
      var rendered := NewBuffer(rendering.value);
      var resp, delivered := DeliverCredential(c, name, op, argv);
      ghost var last := FinishRequest(c, record, resp);
      WipeAll(rendered, secrets.value);
      return fetches + [Render(true)] + delivered + last;
    }

    /** handleConn's steps 9 to 12. */
    method DeliverCredential(c: Conn, name: Text, op: Operation, argv: seq<Text>)
      returns (resp: Response, ghost events: seq<Event>)
      ensures (events, resp) == Deliver(setup.validators, c, name, op, argv)
      ensures forall b: array<Byte> :: b.Length > 0 ==> !fresh(b)
    {
      if !c.dirCreated {
        return RESP_UNAVAILABLE, [CreateDir(false)];
      }
      events := [CreateDir(true)];
      if !c.credWritten {
        events := events + [WriteCredential(false)];
        events := events + [CleanDir];
        assert events == [CreateDir(true), WriteCredential(false), CleanDir];
        return RESP_UNAVAILABLE, events;
      }
      events := events + [WriteCredential(true)];
      events := events + [Run(argv)];
      resp := Classify(setup.validators, name, op, c.result);
      events := events + [CleanDir];
      assert events == [CreateDir(true), WriteCredential(true), Run(argv), CleanDir];
    }
  }

  /** The buffers hold exactly these values. */
  ghost predicate Holds(secrets: seq<array<Byte>>, values: seq<Text>)
    reads secrets
  {
    |secrets| == |values| && forall i :: 0 <= i < |secrets| ==> secrets[i][..] == values[i]
  }

  method Contents(secrets: seq<array<Byte>>) returns (values: seq<Text>)
    ensures Holds(secrets, values)
    ensures forall held: seq<Text> {:trigger Holds(secrets, held)} :: Holds(secrets, held) ==> held == values
    ensures forall b: array<Byte> :: b.Length > 0 ==> !fresh(b)
  {
    values := [];
    for i := 0 to |secrets|
      invariant |values| == i && forall k :: 0 <= k < i ==> values[k] == secrets[k][..]
    {
      values := values + [secrets[i][..]];
    }
  }

  method NewBuffer(value: Text) returns (b: array<Byte>)
    ensures fresh(b) && b[..] == value
    ensures forall x: array<Byte> :: x.Length > 0 && fresh(x) ==> x == b
  {
    b := new Byte[|value|](k requires 0 <= k < |value| => value[k]);
  }

  lemma FetchStarts(profile: Profile, names: seq<Text>, c: Conn)
    requires Visits(names, profile.secrets.Keys)
    ensures forall k :: k in names ==> k in profile.secrets
    ensures FetchRun(profile, names, c, 0) == ([], Some([])) && Holds([], [])
  {
  }

  lemma FetchEnds(profile: Profile, names: seq<Text>, c: Conn)
    requires Visits(names, profile.secrets.Keys) && names == OrderOf(c, profile)
    ensures FetchEvents(profile, c) == FetchRun(profile, names, c, |names|).0
    ensures FetchValues(profile, c) == FetchRun(profile, names, c, |names|).1
  {
  }

  lemma ServeUnfolds(s: Setup, c: Conn, profile: Profile, name: Text, op: Operation, argv: seq<Text>)
    requires Visits(OrderOf(c, profile), profile.secrets.Keys)
    ensures var values := FetchValues(profile, c);
            Serve(s, c, profile, name, op, argv) ==
              if values.None? then (FetchEvents(profile, c), RESP_UNAVAILABLE)
              else if RenderedText(profile, c).None? then (FetchEvents(profile, c) + [Render(false)], RESP_UNAVAILABLE)
              else
                (FetchEvents(profile, c) + [Render(true)] + Deliver(s.validators, c, name, op, argv).0,
                 Deliver(s.validators, c, name, op, argv).1)
    ensures FetchValues(profile, c).Some? ==>
              && |OrderOf(c, profile)| == |FetchValues(profile, c).value|
              && RenderedText(profile, c)
                 == Rendering(profile, Named(OrderOf(c, profile), FetchValues(profile, c).value))
  {
    FetchLength(profile, OrderOf(c, profile), c, |OrderOf(c, profile)|);
  }

  lemma HoldsOneMore(secrets: seq<array<Byte>>, values: seq<Text>, val: array<Byte>)
    requires Holds(secrets, values)
    ensures Holds(secrets + [val], values + [val[..]])
  {
  }

  lemma FetchStep(profile: Profile, names: seq<Text>, c: Conn, i: nat)
    requires i < |names| && forall k :: k in names ==> k in profile.secrets
    requires FetchRun(profile, names, c, i).1.Some?
    ensures var (events, values) := FetchRun(profile, names, c, i);
            var outcome := Outcome(c, names[i]);
            FetchRun(profile, names, c, i + 1) ==
              (events + StoreCall(profile.secrets[names[i]], outcome),
               if outcome.Got? then Some(values.value + [outcome.value]) else None)
  {
  }

  /** A failed fetch is the last. */
  lemma {:induction false} FailureSticks(profile: Profile, names: seq<Text>, c: Conn, i: nat, n: nat)
    requires i <= n <= |names| && forall k :: k in names ==> k in profile.secrets
    requires FetchRun(profile, names, c, i).1.None?
    ensures FetchRun(profile, names, c, n) == FetchRun(profile, names, c, i)
    decreases n - i
  {
    if i < n {
      FailureSticks(profile, names, c, i, n - 1);
    }
  }

  lemma FetchStops(profile: Profile, names: seq<Text>, c: Conn, i: nat)
    requires Visits(names, profile.secrets.Keys) && names == OrderOf(c, profile)
    requires i <= |names| && FetchRun(profile, names, c, i).1.None?
    ensures FetchEvents(profile, c) == FetchRun(profile, names, c, i).0 && FetchValues(profile, c).None?
  {
    FailureSticks(profile, names, c, i, |names|);
  }
}
