/**
 What every connection and every interleaving of connections keeps
 (internal/broker/session.go, and Serve in internal/broker/broker.go).
 */
module Sessions {
  import opened Bytes
  import opened Consumer
  import opened Protocol
  import opened Authz
  import opened Broker

  // ----- One connection -----

  /** The part of a session after screening, authorization and resolution, where the
      credential is touched. */
  predicate TouchesCredential(e: Event) {
    e.Fetch? || e.Render? || e.CreateDir? || e.WriteCredential? || e.Run? || e.CleanDir?
  }

  lemma {:induction false} FetchesOnly(profile: Profile, names: seq<Text>, c: Conn, n: nat)
    requires n <= |names| && forall k :: k in names ==> k in profile.secrets
    ensures forall i :: 0 <= i < |FetchRun(profile, names, c, n).0| ==> FetchRun(profile, names, c, n).0[i].Fetch?
  {
    if n > 0 {
      FetchesOnly(profile, names, c, n - 1);
    }
  }

  /** What serving does: every step touches the credential; a runtime directory, once
      created, is cleaned at the very end and nothing else is; and the consumer runs the
      given vector, once the credential is in that directory. */
  ghost predicate WellServed(events: seq<Event>, argv: seq<Text>) {
    && (forall i :: 0 <= i < |events| ==> TouchesCredential(events[i]))
    && (forall i :: 0 <= i < |events| && events[i] == CreateDir(true) ==>
      i + 2 < |events| && events[|events| - 1] == CleanDir)
    && (forall i :: 0 <= i < |events| && events[i].CleanDir? ==> i == |events| - 1 && CreateDir(true) in events)
    && (forall i :: 0 <= i < |events| && events[i].Run? ==> events[i] == Run(argv) && i + 2 == |events|)
    && (forall i, k :: 0 <= i < |events| && 0 <= k < |events| && events[i] == CreateDir(true) && events[k].Run? ==>
          i + 2 == k && events[i + 1] == WriteCredential(true))
  }

  /** The ways serving can end after the fetches. */
  function Endings(argv: seq<Text>): seq<seq<Event>> {
    [[], [Render(false)], [Render(true), CreateDir(false)],
     [Render(true), CreateDir(true), WriteCredential(false), CleanDir],
     [Render(true), CreateDir(true), WriteCredential(true), Run(argv), CleanDir]]
  }

  lemma EndingIsWellServed(fetches: seq<Event>, k: nat, argv: seq<Text>)
    requires k < 5 && forall i :: 0 <= i < |fetches| ==> fetches[i].Fetch?
    ensures WellServed(fetches + Endings(argv)[k], argv)
    ensures k == 4 ==> Run(argv) in fetches + Endings(argv)[k]
  {
    var ending := Endings(argv)[k];
    var events := fetches + ending;
    forall i | |fetches| <= i < |events| ensures events[i] == ending[i - |fetches|] {
    }
    if k == 3 {
      assert events[|fetches| + 1] == CreateDir(true);
    } else if k == 4 {
      assert events[|fetches| + 1] == CreateDir(true);
      assert events[|fetches| + 3] == Run(argv);
    } else {
      assert forall i :: 0 <= i < |events| ==> !events[i].CleanDir? && !events[i].Run? && events[i] != CreateDir(true);
    }
  }

  lemma ServeHasEnding(s: Setup, c: Conn, profile: Profile, name: Text, op: Operation, argv: seq<Text>) returns (k: nat)
    requires Visits(OrderOf(c, profile), profile.secrets.Keys)
    ensures k < 5 && Serve(s, c, profile, name, op, argv).0 == FetchEvents(profile, c) + Endings(argv)[k]
    ensures Serve(s, c, profile, name, op, argv).1.status == StatusOk ==>
              k == 4 && Serve(s, c, profile, name, op, argv).1.error.None?
  {
    ServeUnfolds(s, c, profile, name, op, argv);
    hide FetchRun, Serve, Visits, ValidatorFor;
    k := if FetchValues(profile, c).None? then 0
         else if RenderedText(profile, c).None? then 1
         else if !c.dirCreated then 2
         else if !c.credWritten then 3
         else 4;
    if k >= 2 {
      Regroup(FetchEvents(profile, c), [Render(true)], Deliver(s.validators, c, name, op, argv).0);
      assert [Render(true)] + Deliver(s.validators, c, name, op, argv).0 == Endings(argv)[k];
    }
  }

  lemma ServeIsWellServed(s: Setup, c: Conn, profile: Profile, name: Text, op: Operation, argv: seq<Text>)
    requires Visits(OrderOf(c, profile), profile.secrets.Keys)
    ensures WellServed(Serve(s, c, profile, name, op, argv).0, argv)
    ensures Serve(s, c, profile, name, op, argv).1.status == StatusOk ==>
              Run(argv) in Serve(s, c, profile, name, op, argv).0 && Serve(s, c, profile, name, op, argv).1.error.None?
  {
    FetchesOnly(profile, OrderOf(c, profile), c, |OrderOf(c, profile)|);
    var k := ServeHasEnding(s, c, profile, name, op, argv);
    assert forall i :: 0 <= i < |FetchEvents(profile, c)| ==> FetchEvents(profile, c)[i].Fetch?;
    hide *;
    EndingIsWellServed(FetchEvents(profile, c), k, argv);
  }

  /** The operation a well-formed request names. */
  function Ref(c: Conn): (Text, Text)
    requires Screened(c.request).None?
  {
    SplitOperationRef(c.request.value.operation).value
  }

  /** A connection that reaches the credential: authorized, resolved, its vector built. */
  ghost predicate Admitted(s: Setup, c: Conn) {
    && c.peer.Some? && c.readable
    && Screened(c.request).None?
    && Decide(s.authz, c.peer.value, c.request.value.operation)
    && Ref(c).0 in s.defs && Ref(c).1 in s.defs[Ref(c).0].operations
    && ArgvOf(s.defs[Ref(c).0], Ref(c).1, c.request.value.inputs).Argv?
    && s.defs[Ref(c).0].profile in s.profiles
  }

  ghost function Served(s: Setup, c: Conn): (seq<Event>, Response)
    requires Ordered(c) && Admitted(s, c)
  {
    var def := s.defs[Ref(c).0];
    Serve(s, c, s.profiles[def.profile], c.request.value.operation, def.operations[Ref(c).1], VectorOf(s, c))
  }

  ghost function VectorOf(s: Setup, c: Conn): seq<Text>
    requires Admitted(s, c)
  {
    ArgvOf(s.defs[Ref(c).0], Ref(c).1, c.request.value.inputs).argv
  }

  lemma AdmittedSession(s: Setup, c: Conn)
    requires Ordered(c) && Admitted(s, c)
    ensures Session(s, c) == Served(s, c).0 + Finish(c, Record(c.peer.value, c.request), Served(s, c).1)
    ensures WellServed(Served(s, c).0, VectorOf(s, c))
    ensures Served(s, c).1.status == StatusOk ==> Run(VectorOf(s, c)) in Served(s, c).0 && Served(s, c).1.error.None?
  {
    hide Serve, Decide, SplitOperationRef, ArgvOf, Finish, WellServed;
    var def := s.defs[Ref(c).0];
    ServeIsWellServed(s, c, s.profiles[def.profile], c.request.value.operation, def.operations[Ref(c).1],
                      VectorOf(s, c));
  }

  /** The answer to a readable connection that is not admitted. */
  ghost predicate Refused(s: Setup, c: Conn, resp: Response)
    requires Ordered(c) && c.peer.Some? && c.readable
  {
    Session(s, c) == Finish(c, Record(c.peer.value, c.request), resp) && resp.status != StatusOk
  }

  lemma DeniedSession(s: Setup, c: Conn)
    requires Ordered(c) && c.peer.Some? && c.readable
    requires Screened(c.request).None? ==> !Decide(s.authz, c.peer.value, c.request.value.operation)
    ensures var resp := if Screened(c.request).Some? then Screened(c.request).value else RESP_DENIED;
            resp.status != StatusOk && Session(s, c) == Finish(c, Record(c.peer.value, c.request), resp)
  {
    hide Decide, SplitOperationRef, Record, Finish, Ordered;
  }

  lemma InvalidSession(s: Setup, c: Conn)
    requires Ordered(c) && c.peer.Some? && c.readable && Screened(c.request).None?
    requires Decide(s.authz, c.peer.value, c.request.value.operation)
    requires Ref(c).0 in s.defs && Ref(c).1 in s.defs[Ref(c).0].operations
    requires !ArgvOf(s.defs[Ref(c).0], Ref(c).1, c.request.value.inputs).Argv?
    ensures Refused(s, c, RespInvalidInput(ArgvOf(s.defs[Ref(c).0], Ref(c).1, c.request.value.inputs)))
  {
    hide Decide, SplitOperationRef, ArgvOf, Finish, Ordered, Record;
  }

  lemma ReadyMeans(s: Setup)
    requires Ready(s)
    ensures ValidFile(s.authz) && Validate(s.authz, s.defs)
    ensures forall n :: n in s.defs ==> s.defs[n].profile in s.profiles
  {
  }

  lemma NotAdmitted(s: Setup, c: Conn)
    requires c.peer.Some? && c.readable && !Admitted(s, c) && Screened(c.request).None?
    requires Decide(s.authz, c.peer.value, c.request.value.operation)
    requires Ref(c).0 in s.defs && Ref(c).1 in s.defs[Ref(c).0].operations && s.defs[Ref(c).0].profile in s.profiles
    ensures !ArgvOf(s.defs[Ref(c).0], Ref(c).1, c.request.value.inputs).Argv?
  {
  }

  /** On a ready server a readable connection is either admitted or refused at once: no
      authorized operation is unresolved, and none lacks its profile. */
  lemma ReadySession(s: Setup, c: Conn)
    requires Ready(s) && Ordered(c) && c.peer.Some? && c.readable && !Admitted(s, c)
    ensures exists resp :: Refused(s, c, resp)
  {
    hide Ready, Ordered, Admitted, Session, Decide, SplitOperationRef, ArgvOf, Finish, ValidFile, Validate, Record;
    var screened := Screened(c.request);
    if screened.Some? || !Decide(s.authz, c.peer.value, c.request.value.operation) {
      DeniedSession(s, c);
      assert Refused(s, c, if screened.Some? then screened.value else RESP_DENIED);
    } else {
      ReadyMeans(s);
      AuthorizedResolves(s.authz, s.defs, c.peer.value, c.request.value.operation);
      NotAdmitted(s, c);
      InvalidSession(s, c);
    }
  }

  /** After a readable frame a ready server makes exactly one audit attempt and then one
      response attempt, the last two things it does, and never meets a broken invariant. */
  lemma OneAuditThenOneResponse(s: Setup, c: Conn)
    requires Ready(s) && Ordered(c)
    ensures var events := Session(s, c);
            if c.peer.None? || !c.readable then events == []
            else
              && |events| >= 2 && events[|events| - 2].Audit? && events[|events| - 1].Respond?
              && forall i :: 0 <= i < |events| - 2 ==> TouchesCredential(events[i])
  {
    hide Served, Admitted, Ready, Ordered, Record, VectorOf;
    if c.peer.Some? && c.readable {
      hide Session;
      if Admitted(s, c) {
        AdmittedSession(s, c);
      } else {
        ReadySession(s, c);
      }
    }
  }

  lemma TouchedInServed(served: seq<Event>, finish: seq<Event>, i: nat)
    requires |finish| == 2 && finish[0].Audit? && finish[1].Respond?
    requires i < |served + finish| && TouchesCredential((served + finish)[i])
    ensures i < |served| && (served + finish)[i] == served[i]
  {
  }

  /** The credential is touched only for an authorized operation whose inputs were
      accepted, and what runs is the vector built from the definition. */
  lemma CredentialNeedsAuthorization(s: Setup, c: Conn, i: nat)
    requires Ready(s) && Ordered(c) && i < |Session(s, c)| && TouchesCredential(Session(s, c)[i])
    ensures Admitted(s, c)
    ensures Session(s, c)[i].Run? ==> Session(s, c)[i] == Run(VectorOf(s, c))
  {
    hide Session, Served, Admitted, Ready, Ordered, VectorOf, Record;
    OneAuditThenOneResponse(s, c);
    if Admitted(s, c) {
      AdmittedSession(s, c);
      TouchedInServed(Served(s, c).0, Finish(c, Record(c.peer.value, c.request), Served(s, c).1), i);
    } else {
      ReadySession(s, c);
    }
  }

  lemma CleanedInServed(served: seq<Event>, finish: seq<Event>, argv: seq<Text>, i: nat)
    requires |finish| == 2 && finish[0].Audit? && finish[1].Respond? && WellServed(served, argv)
    requires i < |served + finish| && (served + finish)[i] == CreateDir(true)
    ensures var events := served + finish;
            && i < |events| - 3 && events[|events| - 3] == CleanDir
            && forall k :: 0 <= k < |events| && events[k].Run? ==>
              i + 2 == k && events[k - 1] == WriteCredential(true) && k < |events| - 3
  {
  }

  /** A runtime directory that was created is cleaned right before the audit record and
      the response; the consumer runs in between, once the credential is in place. */
  lemma CleanedBeforeResponse(s: Setup, c: Conn, i: nat)
    requires Ready(s) && Ordered(c) && i < |Session(s, c)| && Session(s, c)[i] == CreateDir(true)
    ensures var events := Session(s, c);
            && i < |events| - 3 && events[|events| - 3] == CleanDir
            && forall k :: 0 <= k < |events| && events[k].Run? ==>
              i + 2 == k && events[k - 1] == WriteCredential(true) && k < |events| - 3
  {
    hide Session, Served, Ready, Ordered, VectorOf, WellServed, Record;
    CredentialNeedsAuthorization(s, c, i);
    AdmittedSession(s, c);
    CleanedInServed(Served(s, c).0, Finish(c, Record(c.peer.value, c.request), Served(s, c).1), VectorOf(s, c), i);
  }

  function OkRecord(record: AuditRecord): AuditRecord {
    AuditRecord(record.peer, record.operation, record.inputNames, StatusOk, None)
  }

  /** There is one response, at the very end and right after the audit attempt; if it is
      OK, that attempt made durable a record of just this decision, and the consumer ran. */
  ghost predicate WellAudited(events: seq<Event>, record: AuditRecord) {
    forall k :: 0 <= k < |events| && events[k].Respond? ==>
      && k == |events| - 1 && k >= 1 && events[k - 1].Audit?
      && (events[k].response.status == StatusOk ==> events[k - 1] == Audit(OkRecord(record), true) && HasRun(events))
  }

  predicate HasRun(events: seq<Event>) {
    exists i :: 0 <= i < |events| && events[i].Run?
  }

  lemma FinishIsWellAudited(events: seq<Event>, c: Conn, record: AuditRecord, resp: Response)
    requires forall i :: 0 <= i < |events| ==> TouchesCredential(events[i])
    requires resp.status == StatusOk ==> resp.error.None? && HasRun(events)
    ensures WellAudited(events + Finish(c, record, resp), record)
  {
    var all := events + Finish(c, record, resp);
    assert forall i :: 0 <= i < |events| ==> all[i] == events[i];
    assert all[|events|] == Finish(c, record, resp)[0] && all[|events| + 1] == Finish(c, record, resp)[1];
  }

  /** OK is sent only right after a durable record of this very decision, and only for a
      consumer that ran. */
  lemma OkIsAudited(s: Setup, c: Conn)
    requires Ready(s) && Ordered(c) && c.peer.Some?
    ensures WellAudited(Session(s, c), Record(c.peer.value, c.request))
  {
    var record := Record(c.peer.value, c.request);
    if c.readable {
      if Admitted(s, c) {
        AdmittedSession(s, c);
        hide Session, Served, Admitted, Ready, VectorOf, WellAudited, Record, Finish;
        FinishIsWellAudited(Served(s, c).0, c, record, Served(s, c).1);
      } else {
        ReadySession(s, c);
        hide Session, Admitted, Ready, WellAudited, Record, Finish;
        var resp :| Refused(s, c, resp);
        FinishIsWellAudited([], c, record, resp);
        assert [] + Finish(c, record, resp) == Finish(c, record, resp);
      }
    }
  }

  /** Everything that must have gone well for an admitted request. */
  ghost predicate Succeeds(s: Setup, c: Conn)
    requires Admitted(s, c)
  {
    var def := s.defs[Ref(c).0];
    var profile := s.profiles[def.profile];
    && AllGot(profile, c)
    && Rendering(profile, SecretValues(profile, c)).Some?
    && c.dirCreated && c.credWritten
    && Yield(s, c).Some?
    && c.auditDurable
  }

  ghost function Yield(s: Setup, c: Conn): Option<Text>
    requires Admitted(s, c)
  {
    Canonical(s.validators, c.request.value.operation, s.defs[Ref(c).0].operations[Ref(c).1], c.result)
  }

  lemma ServedOk(s: Setup, c: Conn)
    requires Ordered(c) && Admitted(s, c)
    ensures Served(s, c).1.status == StatusOk && c.auditDurable <==> Succeeds(s, c)
    ensures Succeeds(s, c) ==> Served(s, c).1 == OkResponse(Yield(s, c).value)
  {
    var def := s.defs[Ref(c).0];
    var profile, op := s.profiles[def.profile], def.operations[Ref(c).1];
    hide Decide, SplitOperationRef, ArgvOf, FetchRun, ValidatorFor, Visits, SecretValues, Rendering;
    ServeUnfolds(s, c, profile, c.request.value.operation, op, VectorOf(s, c));
    RenderingIgnoresOrder(profile, c);
    ClassifyIsCanonical(s.validators, c.request.value.operation, op, c.result);
    hide Classify, Canonical, Serve;
  }

  /** A client is answered OK exactly when it is admitted, every store answered, the
      credential was rendered and delivered, the run ended well with output its validator
      accepts, and the record is durable; and then it gets the canonical output. */
  lemma OkExactness(s: Setup, c: Conn)
    requires Ready(s) && Ordered(c) && c.peer.Some? && c.readable
    ensures |Session(s, c)| >= 1
    ensures var last := Session(s, c)[|Session(s, c)| - 1];
            && last.Respond?
            && (last.response.status == StatusOk <==> Admitted(s, c) && Succeeds(s, c))
            && (Admitted(s, c) && Succeeds(s, c) ==> last.response.result == Yield(s, c).value)
  {
    if Admitted(s, c) {
      AdmittedSession(s, c);
      ServedOk(s, c);
    } else {
      ReadySession(s, c);
    }
    hide Session, Served, Admitted, Ready, Succeeds, Yield, Record;
  }

  // ----- What a client is answered -----

  const UNSUPPORTED := Response(StatusInvalid, [], Some(ErrorBody(UnsupportedProtocol, None)))
  const MALFORMED := Response(StatusInvalid, [], Some(ErrorBody(MalformedRequest, None)))
  const DENIED := Response(StatusDenied, [], Some(ErrorBody(NotAuthorized, None)))
  const UNAVAILABLE := Response(StatusUnavailable, [], Some(ErrorBody(BrokerUnavailable, None)))

  /** Two valid names joined by a dot. */
  ghost predicate IsJoined(operation: Text) {
    exists u: Text, v: Text :: ValidName(u) && ValidName(v) && operation == u + "." + v
  }

  lemma JoinedSplits(operation: Text)
    ensures IsJoined(operation) <==> SplitOperationRef(operation).Some?
  {
    if SplitOperationRef(operation).Some? {
      JoinAfterSplit(operation);
    }
    hide SplitOperationRef, ValidName;
    if IsJoined(operation) {
      var u: Text, v: Text :| ValidName(u) && ValidName(v) && operation == u + "." + v;
      SplitAfterJoin(u, v);
    }
  }

  /** What is refused before authorization, in the request's own fields. */
  lemma ScreenedExactness(request: Option<Request>)
    ensures Screened(request) == Some(UNSUPPORTED) <==>
              request.Some? && request.value.protocol > 0 && request.value.protocol != 1
    ensures Screened(request) == Some(MALFORMED) <==>
              || request.None?
              || request.value.protocol <= 0
              || (request.value.protocol == 1 && !IsJoined(request.value.operation))
    ensures Screened(request).None? <==>
              request.Some? && request.value.protocol == 1 && IsJoined(request.value.operation)
    ensures Screened(request).Some? ==> Screened(request).value in {UNSUPPORTED, MALFORMED}
  {
    if request.Some? {
      JoinedSplits(request.value.operation);
      NothingJoins();
    }
    hide IsJoined, SplitOperationRef;
  }

  lemma NothingJoins()
    ensures SplitOperationRef([]).None?
  {
  }

  /** The credential is touched, and OK answered, only for a request of protocol 1 that
      names an operation. */
  lemma ProtocolIsChecked(s: Setup, c: Conn, i: nat)
    requires Ready(s) && Ordered(c) && i < |Session(s, c)|
    requires TouchesCredential(Session(s, c)[i]) ||
             (Session(s, c)[i].Respond? && Session(s, c)[i].response.status == StatusOk)
    ensures c.request.Some? && c.request.value.protocol == 1 && IsJoined(c.request.value.operation)
  {
    hide Ready, Ordered, Session, Screened, IsJoined, Succeeds, TouchesCredential, Yield;
    OneAuditThenOneResponse(s, c);
    if TouchesCredential(Session(s, c)[i]) {
      CredentialNeedsAuthorization(s, c, i);
    } else {
      OnlyLastResponds(s, c, i);
      OkExactness(s, c);
    }
    ScreenedExactness(c.request);
  }

  lemma OnlyLastResponds(s: Setup, c: Conn, i: nat)
    requires Ready(s) && Ordered(c) && i < |Session(s, c)| && Session(s, c)[i].Respond?
    ensures c.peer.Some? && c.readable && i == |Session(s, c)| - 1
  {
    hide Ready, Ordered, Session;
    OneAuditThenOneResponse(s, c);
  }

  /** What serving answers: whatever became of the run, or unavailable without one. */
  lemma ServedAnswer(s: Setup, c: Conn)
    requires Ordered(c) && Admitted(s, c)
    ensures Served(s, c).1 ==
              if HasRun(Served(s, c).0) then
                Classify(s.validators, c.request.value.operation, s.defs[Ref(c).0].operations[Ref(c).1], c.result)
              else UNAVAILABLE
  {
    hide Decide, SplitOperationRef, ArgvOf, Serve, Classify, WellServed;
    var def := s.defs[Ref(c).0];
    ServeAnswer(s, c, s.profiles[def.profile], c.request.value.operation, def.operations[Ref(c).1], VectorOf(s, c));
  }

  lemma ServeAnswer(s: Setup, c: Conn, profile: Profile, name: Text, op: Operation, argv: seq<Text>)
    requires Visits(OrderOf(c, profile), profile.secrets.Keys)
    ensures Serve(s, c, profile, name, op, argv).1 ==
              if HasRun(Serve(s, c, profile, name, op, argv).0) then Classify(s.validators, name, op, c.result)
              else UNAVAILABLE
  {
    ServeUnfolds(s, c, profile, name, op, argv);
    FetchesOnly(profile, OrderOf(c, profile), c, |OrderOf(c, profile)|);
    hide FetchRun, Serve, Visits, Classify;
    var fetches := FetchEvents(profile, c);
    if FetchValues(profile, c).Some? && RenderedText(profile, c).Some? && c.dirCreated && c.credWritten {
      var events := Serve(s, c, profile, name, op, argv).0;
      assert events[|fetches| + 3].Run?;
    }
  }

  /** The answer to a readable connection. */
  ghost function Answer(s: Setup, c: Conn): Response
    requires Ready(s) && Ordered(c) && c.peer.Some? && c.readable
  {
    OneAuditThenOneResponse(s, c);
    Session(s, c)[|Session(s, c)| - 1].response
  }

  ghost predicate IsGranted(s: Setup, c: Conn)
    requires c.peer.Some? && c.request.Some?
  {
    exists k :: 0 <= k < |s.authz.entries| && s.authz.entries[k].uid == c.peer.value
                && c.request.value.operation in s.authz.entries[k].operations
  }

  lemma AnswerCases(s: Setup, c: Conn)
    requires Ready(s) && Ordered(c) && c.peer.Some? && c.readable
    ensures Screened(c.request).Some? ==> Answer(s, c) == Screened(c.request).value
    ensures Screened(c.request).None? && !Decide(s.authz, c.peer.value, c.request.value.operation) ==>
              Answer(s, c) == DENIED
    ensures Screened(c.request).None? && Decide(s.authz, c.peer.value, c.request.value.operation) ==>
              if Admitted(s, c) then
                var resp := Served(s, c).1;
                Answer(s, c) == if resp.status == StatusOk && !c.auditDurable then UNAVAILABLE else resp
              else
                && Answer(s, c).status == StatusInvalid && Answer(s, c).error.Some?
                && Answer(s, c).error.value.code == InvalidInput
  {
    ScreenedExactness(c.request);
    hide Ready, Ordered, Admitted, Session, Served, Decide, SplitOperationRef, ArgvOf, ValidFile, Validate, Record,
      VectorOf, Screened, IsJoined;
    OneAuditThenOneResponse(s, c);
    if Screened(c.request).Some? || !Decide(s.authz, c.peer.value, c.request.value.operation) {
      DeniedSession(s, c);
    } else if Admitted(s, c) {
      AdmittedSession(s, c);
    } else {
      ReadyMeans(s);
      AuthorizedResolves(s.authz, s.defs, c.peer.value, c.request.value.operation);
      NotAdmitted(s, c);
      InvalidSession(s, c);
    }
  }

  lemma GrantedExactness(s: Setup, c: Conn)
    requires Ready(s) && c.peer.Some? && c.request.Some?
    ensures Decide(s.authz, c.peer.value, c.request.value.operation) <==> IsGranted(s, c)
  {
    hide Decide, Validate, OperationReady, InjectAllowed, ValidFile;
    var uid, operation := c.peer.value, c.request.value.operation;
    DecideIsGrant(s.authz, uid, operation);
    assert forall k :: 0 <= k < |s.authz.entries| ==>
             (Grants(s.authz.entries[k], uid, operation) <==>
              s.authz.entries[k].uid == uid && operation in s.authz.entries[k].operations);
  }

  /** Every refusal, in the request's own fields: unsupported, malformed, denied, or inputs
      the operation does not take. */
  lemma AnswerExactness(s: Setup, c: Conn)
    requires Ready(s) && Ordered(c) && c.peer.Some? && c.readable
    ensures Answer(s, c) == UNSUPPORTED <==>
              c.request.Some? && c.request.value.protocol > 0 && c.request.value.protocol != 1
    ensures Answer(s, c) == MALFORMED <==>
              || c.request.None?
              || c.request.value.protocol <= 0
              || (c.request.value.protocol == 1 && !IsJoined(c.request.value.operation))
    ensures Answer(s, c) == DENIED <==>
              && c.request.Some? && c.request.value.protocol == 1 && IsJoined(c.request.value.operation)
              && !IsGranted(s, c)
    ensures (Answer(s, c).error.Some? && Answer(s, c).error.value.code == InvalidInput) <==>
              && c.request.Some? && c.request.value.protocol == 1 && IsJoined(c.request.value.operation)
              && IsGranted(s, c) && !Admitted(s, c)
  {
    hide Ready, Ordered, Session, Served, Decide, ArgvOf, Screened, IsJoined, IsGranted, Classify, Answer, Admitted;
    AnswerCases(s, c);
    ScreenedExactness(c.request);
    if c.request.Some? {
      GrantedExactness(s, c);
    }
    if Admitted(s, c) {
      ServedRefusal(s, c);
    }
  }

  lemma ServedRefusal(s: Setup, c: Conn)
    requires Ordered(c) && Admitted(s, c)
    ensures Screened(c.request).None? && Decide(s.authz, c.peer.value, c.request.value.operation)
    ensures Served(s, c).1.status == StatusOk ==> Served(s, c).1.error.None?
    ensures Served(s, c).1.status != StatusOk ==>
              && Served(s, c).1.error.Some?
              && Served(s, c).1.error.value.code in {TimedOut, ConsumerFailed, ResultTooLarge, BrokerUnavailable}
  {
    ServedAnswer(s, c);
    var op := s.defs[Ref(c).0].operations[Ref(c).1];
    ClassifyExactness(s.validators, c.request.value.operation, op, c.result);
    hide Ordered, Served, Decide, SplitOperationRef, ArgvOf, Classify, ValidatorFor, HasRun;
  }

  /** A run is answered as it ended, and a request that never got that far as unavailable. */
  lemma RunAnswer(s: Setup, c: Conn)
    requires Ready(s) && Ordered(c) && Admitted(s, c)
    ensures var op := s.defs[Ref(c).0].operations[Ref(c).1];
            var validator := ValidatorFor(s.validators, c.request.value.operation, op);
            Answer(s, c) ==
              if !HasRun(Session(s, c)) then UNAVAILABLE
              else if c.result.timedOut then Response(StatusError, [], Some(ErrorBody(TimedOut, None)))
              else if c.result.exitFailed then Response(StatusError, [], Some(ErrorBody(ConsumerFailed, None)))
              else if c.result.truncated then Response(StatusError, [], Some(ErrorBody(ResultTooLarge, None)))
              else if validator.None? || validator.value(c.result.stdout).None? then
                Response(StatusError, [], Some(ErrorBody(ConsumerFailed, None)))
              else if !c.auditDurable then UNAVAILABLE
              else Response(StatusOk, validator.value(c.result.stdout).value, None)
  {
    AnswerCases(s, c);
    ServedAnswer(s, c);
    ClassifyExactness(s.validators, c.request.value.operation, s.defs[Ref(c).0].operations[Ref(c).1], c.result);
    AdmittedSession(s, c);
    RunsInServed(Served(s, c).0, Finish(c, Record(c.peer.value, c.request), Served(s, c).1));
    hide Ready, Ordered, Session, Served, Decide, SplitOperationRef, ArgvOf, Screened, Classify, Answer, ValidatorFor,
      HasRun;
  }

  lemma RunsInServed(served: seq<Event>, finish: seq<Event>)
    requires |finish| == 2 && finish[0].Audit? && finish[1].Respond?
    ensures HasRun(served + finish) <==> HasRun(served)
  {
    var all := served + finish;
    if i :| 0 <= i < |served| && served[i].Run? {
      assert all[i].Run?;
    }
    if i :| 0 <= i < |all| && all[i].Run? {
      assert served[i].Run?;
    }
  }

  /** Whatever runs on a server that started is a program its startup found trusted. */
  lemma RunIsTrusted(st: Startup, s: Setup, c: Conn, i: nat)
    requires Ready(s) && IsTrusted(st, s) && Ordered(c) && i < |Session(s, c)| && Session(s, c)[i].Run?
    ensures |Session(s, c)[i].argv| >= 1 && st.verify(Session(s, c)[i].argv[0])
  {
    hide Ready, Ordered, Session, Decide, SplitOperationRef, ArgvOf;
    CredentialNeedsAuthorization(s, c, i);
    VectorStarts(s.defs[Ref(c).0], Ref(c).1, c.request.value.inputs);
  }

  // ----- Two runs -----

  /** A session up to what only the environment decides: whether the record became
      durable and whether the client received the response. */
  function Visible(e: Event): Event {
    match e
    case Audit(record, _) => Audit(record, true)
    case Respond(response, _) => Respond(response, true)
    case _ => e
  }

  /** For a peer that is not granted the operation it names, everything is the same on any
      two servers with the same authorization file, whatever their definitions, profiles,
      stores and audit logs: it cannot learn whether the operation exists. */
  lemma DeniedLooksTheSame(s: Setup, t: Setup, c: Conn, d: Conn)
    requires Ordered(c) && Ordered(d) && s.authz == t.authz
    requires c.peer.Some? && c.peer == d.peer && c.readable && d.readable && c.request == d.request
    requires c.request.Some? ==> !Decide(s.authz, c.peer.value, c.request.value.operation)
    ensures |Session(s, c)| == |Session(t, d)| == 2
    ensures forall i :: 0 <= i < 2 ==> Visible(Session(s, c)[i]) == Visible(Session(t, d)[i])
    ensures Session(s, c)[1].response == if Screened(c.request).Some? then Screened(c.request).value else RESP_DENIED
  {
    hide Session, Decide, SplitOperationRef, Record, Ordered;
    DeniedSession(s, c);
    DeniedSession(t, d);
  }

  // ----- Classifying a result -----

  /** On a ready server the validator of an admitted request is always there. */
  lemma ValidatorIsThere(s: Setup, c: Conn)
    requires Ready(s) && Admitted(s, c)
    ensures ValidatorFor(s.validators, c.request.value.operation, s.defs[Ref(c).0].operations[Ref(c).1]).Some?
  {
    hide ValidatorFor, ArgvOf, Decide;
    JoinAfterSplit(c.request.value.operation);
    assert OperationReady(s, Ref(c).0, Ref(c).1);
  }

  // ----- Every interleaving -----

  /** What the connections have done so far, in the order it happened: each entry is a
      connection and the event it took part in. */
  type Log = seq<(nat, Event)>

  /** How many events of connection id are among the first n of the log. */
  function Count(log: Log, n: nat, id: nat): (count: nat)
    requires n <= |log|
    ensures count <= n
  {
    if n == 0 then 0 else Count(log, n - 1, id) + if log[n - 1].0 == id then 1 else 0
  }

  /** Some interleaving of sessions: whenever a connection takes a turn, it does the next
      thing of its own session. */
  ghost predicate Interleaved(s: Setup, conns: nat -> Conn, log: Log) {
    forall k :: 0 <= k < |log| ==> TakesTurn(s, conns(log[k].0), log, k)
  }

  ghost predicate TakesTurn(s: Setup, c: Conn, log: Log, k: nat)
    requires k < |log|
  {
    && Ordered(c)
    && Count(log, k, log[k].0) < |Session(s, c)|
    && log[k].1 == Session(s, c)[Count(log, k, log[k].0)]
  }

  /** The turn in which connection id did its m-th thing. */
  lemma {:induction false} TurnOf(log: Log, n: nat, id: nat, m: nat) returns (k: nat)
    requires n <= |log| && m < Count(log, n, id)
    ensures k < n && log[k].0 == id && Count(log, k, id) == m
  {
    if log[n - 1].0 == id && Count(log, n - 1, id) == m {
      k := n - 1;
    } else {
      k := TurnOf(log, n - 1, id, m);
    }
  }

  /** In every interleaving of any number of connections, with audit writes failing as
      they may: an OK response was preceded by its own durable record of decision OK, in
      the same connection, and no other OK response of that connection exists. */
  lemma EveryOkIsAudited(s: Setup, conns: nat -> Conn, log: Log, k: nat) returns (j: nat)
    requires Ready(s) && Interleaved(s, conns, log) && k < |log|
    requires log[k].1.Respond? && log[k].1.response.status == StatusOk
    ensures j < k && log[j].0 == log[k].0
    ensures conns(log[k].0).peer.Some?
    ensures var c := conns(log[k].0);
            log[j].1 == Audit(OkRecord(Record(c.peer.value, c.request)), true)
    ensures forall l :: 0 <= l < |log| && l != k && log[l].0 == log[k].0 ==> !log[l].1.Respond?
  {
    hide Ready, Session, Record, Interleaved, TakesTurn, Count, Ordered;
    var id := log[k].0;
    var c, m := conns(id), Count(log, k, id);
    Turn(s, conns, log, k);
    OkTurn(s, c, m);
    j := TurnOf(log, k, id, m - 1);
    Turn(s, conns, log, j);
    forall l | 0 <= l < |log| && l != k && log[l].0 == id ensures !log[l].1.Respond? {
      Turn(s, conns, log, l);
      CountsDiffer(log, id, if l < k then l else k, if l < k then k else l);
    }
  }

  lemma Turn(s: Setup, conns: nat -> Conn, log: Log, k: nat)
    requires Interleaved(s, conns, log) && k < |log|
    ensures var c, m := conns(log[k].0), Count(log, k, log[k].0);
            Ordered(c) && m < |Session(s, c)| && log[k].1 == Session(s, c)[m]
  {
    hide Session, Count, Ordered;
    assert TakesTurn(s, conns(log[k].0), log, k);
  }

  /** A session that answers OK does so last, once, and right after its record. */
  lemma OkTurn(s: Setup, c: Conn, m: nat)
    requires Ready(s) && Ordered(c) && m < |Session(s, c)|
    requires Session(s, c)[m].Respond? && Session(s, c)[m].response.status == StatusOk
    ensures m >= 1 && c.peer.Some? && Session(s, c)[m - 1] == Audit(OkRecord(Record(c.peer.value, c.request)), true)
    ensures forall i :: 0 <= i < |Session(s, c)| && i != m ==> !Session(s, c)[i].Respond?
  {
    hide Ready, Session, Record, Ordered;
    OneAuditThenOneResponse(s, c);
    OkIsAudited(s, c);
  }

  lemma {:induction false} CountsDiffer(log: Log, id: nat, a: nat, b: nat)
    requires a < b <= |log| && log[a].0 == id
    ensures Count(log, a, id) < Count(log, b, id)
    decreases b
  {
    if a < b - 1 {
      CountsDiffer(log, id, a, b - 1);
    }
  }
}
