/**
 The audit log as text (internal/broker/audit.go): one line of tab-separated fields for
 each record, and when those lines can be read back.
 */
module AuditLog {
  import opened Bytes
  import opened Policy
  import opened Consumer
  import opened Protocol
  import opened Authz
  import opened Broker
  import opened Sessions

  // ----- Writing -----

  /** A record with its time and duration, already formatted. */
  datatype Entry = Entry(time: Text, record: AuditRecord, duration: Text)

  function StatusText(s: Status): Text {
    match s
    case StatusOk => "OK"
    case StatusDenied => "DENIED"
    case StatusInvalid => "INVALID"
    case StatusError => "ERROR"
    case StatusUnavailable => "UNAVAILABLE"
  }

  function CodeText(c: Code): Text {
    match c
    case UnsupportedProtocol => "unsupported_protocol"
    case MalformedRequest => "malformed_request"
    case InvalidInput => "invalid_input"
    case NotAuthorized => "not_authorized"
    case ConsumerFailed => "consumer_failed"
    case ResultTooLarge => "result_too_large"
    case TimedOut => "timeout"
    case BrokerUnavailable => "broker_unavailable"
  }

  function OutcomeText(outcome: Option<Code>): Text { if outcome.None? then DASH else CodeText(outcome.value) }

  const UID: Text := "uid="
  const OPERATION: Text := "operation="
  const DECISION: Text := "decision="
  const OUTCOME: Text := "outcome="
  const DURATION: Text := "duration="
  const INPUTS: Text := "inputs="

  function Decimal(n: nat): Text {
    (if n < 10 then [] else Decimal(n / 10)) + [('0' as int + n % 10) as char]
  }

  const DASH: Text := "-"

  function OrDash(s: Text): Text { if s == [] then DASH else s }

  function NamesText(names: seq<Text>): Text { if names == [] then DASH else JoinOn(names, ',') }

  function Fields(e: Entry): seq<Text> {
    [e.time,
     UID + Decimal(e.record.peer),
     OPERATION + OrDash(e.record.operation),
     DECISION + StatusText(e.record.decision),
     OUTCOME + OutcomeText(e.record.outcome),
     DURATION + e.duration,
     INPUTS + NamesText(e.record.inputNames)]
  }

  /** What Write appends. */
  function Line(e: Entry): Text { Body(e) + ['\n'] }

  function Body(e: Entry): Text { JoinOn(Fields(e), '\t') }

  function LogText(entries: seq<Entry>): Text {
    if entries == [] then [] else Line(entries[0]) + LogText(entries[1..])
  }

  // ----- Reading -----

  function ReadStatus(t: Text): Option<Status> {
    if t == "OK" then Some(StatusOk)
    else if t == "DENIED" then Some(StatusDenied)
    else if t == "INVALID" then Some(StatusInvalid)
    else if t == "ERROR" then Some(StatusError)
    else if t == "UNAVAILABLE" then Some(StatusUnavailable)
    else None
  }

  /** The outcome field: a code, or a dash where there is none. */
  function ReadOutcome(t: Text): Option<Option<Code>> {
    if t == DASH then Some(None)
    else if t == "unsupported_protocol" then Some(Some(UnsupportedProtocol))
    else if t == "malformed_request" then Some(Some(MalformedRequest))
    else if t == "invalid_input" then Some(Some(InvalidInput))
    else if t == "not_authorized" then Some(Some(NotAuthorized))
    else if t == "consumer_failed" then Some(Some(ConsumerFailed))
    else if t == "result_too_large" then Some(Some(ResultTooLarge))
    else if t == "timeout" then Some(Some(TimedOut))
    else if t == "broker_unavailable" then Some(Some(BrokerUnavailable))
    else None
  }

  function Strip(field: Text, name: Text): Option<Text> {
    if name <= field then Some(field[|name|..]) else None
  }

  function ReadUid(t: Text): Option<Uid> {
    match Digits(t)
    case None => None
    case Some(n) => if n < 0x1_0000_0000 then Some(n) else None
  }

  function ReadNames(t: Text): seq<Text> { if t == DASH then [] else SplitOn(t, ',') }

  function ReadFields(fields: seq<Text>): Option<Entry> {
    if |fields| != 7 then None
    else
      match (Strip(fields[1], UID), Strip(fields[2], OPERATION), Strip(fields[3], DECISION),
             Strip(fields[4], OUTCOME), Strip(fields[5], DURATION), Strip(fields[6], INPUTS))
      case (Some(uid), Some(operation), Some(decision), Some(outcome), Some(duration), Some(inputs)) =>
        (match (ReadUid(uid), ReadStatus(decision), ReadOutcome(outcome))
         case (Some(peer), Some(status), Some(code)) =>
           Some(Entry(fields[0],
                      AuditRecord(peer, if operation == DASH then [] else operation, ReadNames(inputs), status, code),
                      duration))
         case _ => None)
      case _ => None
  }

  /** The reader of such a log: a record a line, seven fields a record. */
  function ReadLog(text: Text): Option<seq<Entry>>
    decreases |text|
  {
    if text == [] then Some([])
    else
      match Cut(text, '\n')
      case None => None
      case Some((line, rest)) =>
        assert |text| == |line| + 1 + |rest|;
        match (ReadFields(SplitOn(line, '\t')), ReadLog(rest))
        case (Some(e), Some(entries)) => Some([e] + entries)
        case _ => None
  }

  // ----- Entries that can be read back -----

  predicate IsToken(t: Text) { '\t' !in t && '\n' !in t }

  predicate CleanRecord(r: AuditRecord) {
    && IsToken(r.operation) && r.operation != DASH
    && (forall k :: 0 <= k < |r.inputNames| ==> IsToken(r.inputNames[k]) && ',' !in r.inputNames[k])
    && r.inputNames != [DASH]
  }

  predicate Clean(e: Entry) { IsToken(e.time) && IsToken(e.duration) && CleanRecord(e.record) }

  lemma {:induction false} JoinedIsFree(parts: seq<Text>, sep: Byte, c: Byte)
    requires parts != [] && c != sep && forall k :: 0 <= k < |parts| ==> c !in parts[k]
    ensures c !in JoinOn(parts, sep)
  {
    if |parts| > 1 {
      JoinedIsFree(parts[1..], sep, c);
    }
  }

  lemma {:induction false} DecimalIsRead(n: nat)
    ensures Digits(Decimal(n)) == Some(n) && forall k :: 0 <= k < |Decimal(n)| ==> '0' <= Decimal(n)[k] <= '9'
  {
    if n >= 10 {
      DecimalIsRead(n / 10);
      assert Decimal(n)[..|Decimal(n)| - 1] == Decimal(n / 10);
    }
  }

  lemma FieldsAreTokens(e: Entry, c: Byte)
    requires Clean(e) && (c == '\t' || c == '\n')
    ensures forall k :: 0 <= k < 7 ==> c !in Fields(e)[k]
  {
    DecimalIsRead(e.record.peer);
    NamesAreTokens(e.record.inputNames, c);
    LabelsAreTokens(c);
    WordsAreTokens(e.record, c);
    hide Decimal, StatusText, OutcomeText, NamesText, OrDash;
  }

  lemma LabelsAreTokens(c: Byte)
    requires c == '\t' || c == '\n'
    ensures c !in UID && c !in OPERATION && c !in DECISION && c !in OUTCOME && c !in DURATION && c !in INPUTS &&
              c !in DASH
  {
  }

  lemma StatusIsToken(status: Status)
    ensures IsToken(StatusText(status))
  {
  }

  lemma FrameCodeIsToken(code: Code)
    requires code.UnsupportedProtocol? || code.MalformedRequest?
    ensures IsToken(CodeText(code))
  {
    var t := CodeText(code);
    assert forall k :: 0 <= k < |t| ==> '_' <= t[k];
    hide CodeText;
  }

  lemma RequestCodeIsToken(code: Code)
    requires code.InvalidInput? || code.NotAuthorized?
    ensures IsToken(CodeText(code))
  {
  }

  lemma CodeIsToken(code: Code)
    ensures IsToken(CodeText(code))
  {
    if code.UnsupportedProtocol? || code.MalformedRequest? {
      FrameCodeIsToken(code);
    } else if code.InvalidInput? || code.NotAuthorized? {
      RequestCodeIsToken(code);
    }
  }

  lemma WordsAreTokens(r: AuditRecord, c: Byte)
    requires (c == '\t' || c == '\n') && IsToken(r.operation)
    ensures c !in StatusText(r.decision) && c !in OutcomeText(r.outcome) && c !in OrDash(r.operation)
  {
    StatusIsToken(r.decision);
    if r.outcome.Some? {
      CodeIsToken(r.outcome.value);
    }
    hide StatusText, CodeText;
  }

  lemma NamesAreTokens(names: seq<Text>, c: Byte)
    requires (c == '\t' || c == '\n') && forall k :: 0 <= k < |names| ==> IsToken(names[k])
    ensures c !in NamesText(names)
  {
    if names != [] {
      JoinedIsFree(names, ',', c);
    }
  }

  lemma NamesAreRead(names: seq<Text>)
    requires names != [DASH] && forall k :: 0 <= k < |names| ==> ',' !in names[k]
    ensures ReadNames(NamesText(names)) == names
  {
    assert ',' !in DASH && SplitOn(DASH, ',') == [DASH];
    if names != [] {
      SplitAfterJoinOn(names, ',');
    }
  }

  lemma WordsAreRead(r: AuditRecord)
    requires r.operation != DASH
    ensures ReadStatus(StatusText(r.decision)) == Some(r.decision)
    ensures ReadOutcome(OutcomeText(r.outcome)) == Some(r.outcome)
    ensures (if OrDash(r.operation) == DASH then [] else OrDash(r.operation)) == r.operation
  {
  }

  lemma Stripped(name: Text, t: Text)
    ensures Strip(name + t, name) == Some(t)
  {
  }

  lemma UidIsRead(peer: Uid)
    ensures ReadUid(Decimal(peer)) == Some(peer)
  {
    DecimalIsRead(peer);
  }

  lemma FieldsAreRead(e: Entry)
    requires Clean(e)
    ensures ReadFields(Fields(e)) == Some(e)
  {
    var r := e.record;
    Stripped(UID, Decimal(r.peer));
    Stripped(OPERATION, OrDash(r.operation));
    Stripped(DECISION, StatusText(r.decision));
    Stripped(OUTCOME, OutcomeText(r.outcome));
    Stripped(DURATION, e.duration);
    Stripped(INPUTS, NamesText(r.inputNames));
    UidIsRead(r.peer);
    WordsAreRead(r);
    NamesAreRead(r.inputNames);
    hide Strip, Decimal, StatusText, OutcomeText, NamesText, OrDash, ReadStatus, ReadOutcome, ReadNames, Digits,
      CleanRecord, ReadFields;
    ReadFieldsGives(Fields(e), Decimal(r.peer), OrDash(r.operation), StatusText(r.decision), OutcomeText(r.outcome),
                    e.duration, NamesText(r.inputNames), r.peer);
  }

  lemma ReadFieldsGives(fields: seq<Text>, uid: Text, operation: Text, decision: Text, outcome: Text, duration: Text,
                        inputs: Text, peer: Uid)
    requires |fields| == 7 && ReadUid(uid) == Some(peer) && ReadStatus(decision).Some? && ReadOutcome(outcome).Some?
    requires Strip(fields[1], UID) == Some(uid) && Strip(fields[2], OPERATION) == Some(operation)
    requires Strip(fields[3], DECISION) == Some(decision) && Strip(fields[4], OUTCOME) == Some(outcome)
    requires Strip(fields[5], DURATION) == Some(duration) && Strip(fields[6], INPUTS) == Some(inputs)
    ensures ReadFields(fields) ==
              Some(Entry(fields[0],
                         AuditRecord(peer, if operation == DASH then [] else operation, ReadNames(inputs),
                                     ReadStatus(decision).value, ReadOutcome(outcome).value),
                         duration))
  {
    hide Strip, ReadUid, ReadStatus, ReadOutcome, ReadNames;
  }

  /** A log of clean entries is read back as it was written. */
  lemma {:induction false} LogIsRead(entries: seq<Entry>)
    requires forall k :: 0 <= k < |entries| ==> Clean(entries[k])
    ensures ReadLog(LogText(entries)) == Some(entries)
  {
    hide *;
    if entries == [] {
      EmptyLogIsRead();
    } else {
      var e, rest := entries[0], entries[1..];
      LogIsRead(rest);
      LineIsRead(e);
      LogUnfolds(entries);
      ReadLogStep(Body(e), LogText(rest), e, rest);
      assert entries == [e] + rest;
    }
  }

  lemma EmptyLogIsRead()
    ensures ReadLog(LogText([])) == Some([])
  {
  }

  lemma LogUnfolds(entries: seq<Entry>)
    requires entries != []
    ensures LogText(entries) == Body(entries[0]) + ['\n'] + LogText(entries[1..])
  {
    hide Body;
  }

  lemma ReadLogStep(line: Text, text: Text, e: Entry, rest: seq<Entry>)
    requires '\n' !in line && ReadFields(SplitOn(line, '\t')) == Some(e) && ReadLog(text) == Some(rest)
    ensures ReadLog(line + ['\n'] + text) == Some([e] + rest)
  {
    CutAtFirst(line, '\n', text);
    hide ReadFields, SplitOn, Cut;
  }

  lemma LineIsRead(e: Entry)
    requires Clean(e)
    ensures ReadFields(SplitOn(Body(e), '\t')) == Some(e) && '\n' !in Body(e)
  {
    FieldsAreRead(e);
    FieldsAreTokens(e, '\t');
    FieldsAreTokens(e, '\n');
    assert |Fields(e)| == 7;
    hide Fields, ReadFields, JoinOn, SplitOn, Clean;
    SplitAfterJoinOn(Fields(e), '\t');
    JoinedIsFree(Fields(e), '\t', '\n');
  }

  lemma ReadFieldsMeans(fields: seq<Text>)
    requires ReadFields(fields).Some?
    ensures |fields| == 7
    ensures var e := ReadFields(fields).value;
            && e.time == fields[0]
            && Strip(fields[2], OPERATION).Some? && Strip(fields[5], DURATION) == Some(e.duration)
            && Strip(fields[6], INPUTS).Some? && e.record.inputNames == ReadNames(Strip(fields[6], INPUTS).value)
            && e.record.operation != DASH
            && (e.record.operation == [] || Strip(fields[2], OPERATION) == Some(e.record.operation))
  {
    hide Strip, ReadUid, ReadStatus, ReadOutcome, ReadNames;
  }

  lemma EmptyIsToken()
    ensures IsToken([])
  {
  }

  lemma StripIsToken(field: Text, name: Text)
    requires IsToken(field) && Strip(field, name).Some?
    ensures IsToken(Strip(field, name).value)
  {
    assert Strip(field, name).value == field[|name|..];
  }

  lemma ReadFieldsAreClean(line: Text)
    requires '\n' !in line && ReadFields(SplitOn(line, '\t')).Some?
    ensures Clean(ReadFields(SplitOn(line, '\t')).value)
  {
    var fields := SplitOn(line, '\t');
    SplitTokens(line);
    ReadFieldsMeans(fields);
    hide *;
    TokenFieldsAreClean(fields);
  }

  lemma SplitTokens(line: Text)
    requires '\n' !in line
    ensures forall k :: 0 <= k < |SplitOn(line, '\t')| ==> IsToken(SplitOn(line, '\t')[k])
  {
    SplitPartsAreFree(line, '\t');
    hide SplitOn;
  }

  lemma TokenFieldsAreClean(fields: seq<Text>)
    requires ReadFields(fields).Some? && forall k :: 0 <= k < |fields| ==> IsToken(fields[k])
    ensures Clean(ReadFields(fields).value)
  {
    ReadFieldsMeans(fields);
    hide ReadFields, SplitOn, Strip, ReadNames, IsToken;
    EmptyIsToken();
    StripIsToken(fields[2], OPERATION);
    StripIsToken(fields[5], DURATION);
    StripIsToken(fields[6], INPUTS);
    ReadNamesAreClean(Strip(fields[6], INPUTS).value);
  }

  lemma ReadNamesAreClean(t: Text)
    requires IsToken(t)
    ensures forall k :: 0 <= k < |ReadNames(t)| ==> IsToken(ReadNames(t)[k]) && ',' !in ReadNames(t)[k]
    ensures ReadNames(t) != [DASH]
  {
    SplitPartsAreFree(t, ',');
  }

  /** Whatever the reader reads is clean. */
  lemma {:induction false} ReadLogIsClean(text: Text)
    requires ReadLog(text).Some?
    ensures forall k :: 0 <= k < |ReadLog(text).value| ==> Clean(ReadLog(text).value[k])
    decreases |text|
  {
    if text != [] {
      hide ReadFields, SplitOn, Clean, Cut;
      ReadLogUnfolds(text);
      hide ReadLog;
      var line, rest := Cut(text, '\n').value.0, Cut(text, '\n').value.1;
      ReadLogIsClean(rest);
      ReadFieldsAreClean(line);
      OneMoreClean(ReadFields(SplitOn(line, '\t')).value, ReadLog(rest).value);
    }
  }

  lemma OneMoreClean(e: Entry, rest: seq<Entry>)
    requires Clean(e) && forall k :: 0 <= k < |rest| ==> Clean(rest[k])
    ensures forall k :: 0 <= k < |[e] + rest| ==> Clean(([e] + rest)[k])
  {
    hide Clean;
  }

  lemma ReadLogUnfolds(text: Text)
    requires text != [] && ReadLog(text).Some?
    ensures Cut(text, '\n').Some?
    ensures var (line, rest) := Cut(text, '\n').value;
            && |rest| < |text| && '\n' !in line
            && ReadLog(rest).Some? && ReadFields(SplitOn(line, '\t')).Some?
            && ReadLog(text).value == [ReadFields(SplitOn(line, '\t')).value] + ReadLog(rest).value
  {
    hide ReadFields, SplitOn, Cut;
  }

  /** The text of a log gives back its records exactly when every record is clean: no tab
      or newline in what the client sent, no comma in an input name, and no lone dash. */
  lemma LogExactness(entries: seq<Entry>)
    ensures ReadLog(LogText(entries)) == Some(entries) <==> forall k :: 0 <= k < |entries| ==> Clean(entries[k])
  {
    hide Clean, ReadLog, LogText;
    if ReadLog(LogText(entries)) == Some(entries) {
      ReadLogIsClean(LogText(entries));
    } else if forall k :: 0 <= k < |entries| ==> Clean(entries[k]) {
      LogIsRead(entries);
    }
  }

  // ----- Which requests leave clean records -----

  lemma ValidNameIsClean(s: Text)
    requires ValidName(s)
    ensures IsToken(s) && ',' !in s && s != DASH
  {
  }

  lemma OperationRefIsToken(s: Text)
    requires SplitOperationRef(s).Some?
    ensures IsToken(s) && s != DASH
  {
    JoinAfterSplit(s);
    var (consumer, operation) := SplitOperationRef(s).value;
    ValidNameIsClean(consumer);
    ValidNameIsClean(operation);
    hide SplitOperationRef, ValidName;
    assert '.' in s;
  }

  lemma NamesAreClean(names: seq<Text>)
    requires forall n :: n in names ==> ValidName(n)
    ensures forall k :: 0 <= k < |names| ==> IsToken(names[k]) && ',' !in names[k]
    ensures names != [DASH]
  {
    forall n | n in names ensures IsToken(n) && ',' !in n && n != DASH {
      ValidNameIsClean(n);
    }
    hide ValidName, IsToken;
    assert DASH in [DASH];
  }

  lemma AcceptedNames(d: Definition, opName: Text, inputs: map<Text, Text>)
    requires ArgvOf(d, opName, inputs).Argv?
    ensures opName in d.operations && inputs.Keys <= d.operations[opName].inputs.Keys
  {
    var known := d.operations[opName].inputs.Keys;
    assert inputs.Keys - known == {};
    forall n | n in inputs.Keys ensures n in known {
      assert n in inputs.Keys - known || n in known;
    }
  }

  /** Whatever an admitted client sent, its record is one readable line. */
  lemma AdmittedRecordIsClean(s: Setup, c: Conn)
    requires Ready(s) && Admitted(s, c)
    ensures CleanRecord(Record(c.peer.value, c.request))
  {
    hide ArgvOf, ValidName, SplitOperationRef, ValidatorFor, Fillable, Authz.Decide, ValidFile, Validate;
    var request := c.request.value;
    OperationRefIsToken(request.operation);
    assert OperationReady(s, Ref(c).0, Ref(c).1);
    AcceptedNames(s.defs[Ref(c).0], Ref(c).1, request.inputs);
    NamesAreClean(SortedKeys(request.inputs.Keys));
  }

  /** So a record that would not read back belongs to a request that was refused. */
  lemma UncleanIsRefused(s: Setup, c: Conn)
    requires Ready(s) && Ordered(c) && c.peer.Some? && c.readable
    requires !CleanRecord(Record(c.peer.value, c.request))
    ensures exists resp :: Refused(s, c, resp)
  {
    hide Ready, Ordered, Admitted, CleanRecord, Refused, Record;
    if Admitted(s, c) {
      AdmittedRecordIsClean(s, c);
    } else {
      ReadySession(s, c);
    }
  }

  // ----- One line a record -----

  function Breaks(s: Text): nat {
    if s == [] then 0 else Breaks(s[..|s| - 1]) + if s[|s| - 1] == '\n' then 1 else 0
  }

  lemma {:induction false} BreaksOfParts(s: Text, t: Text)
    ensures Breaks(s + t) == Breaks(s) + Breaks(t)
  {
    if t == [] {
      assert s + t == s;
    } else {
      assert (s + t)[..|s + t| - 1] == s + t[..|t| - 1];
      BreaksOfParts(s, t[..|t| - 1]);
    }
  }

  lemma {:induction false} SomeBreak(s: Text)
    ensures Breaks(s) > 0 <==> '\n' in s
  {
    if s != [] {
      SomeBreak(s[..|s| - 1]);
      assert s == s[..|s| - 1] + [s[|s| - 1]];
    }
  }

  lemma {:induction false} JoinedHolds(parts: seq<Text>, sep: Byte, c: Byte)
    requires parts != [] && c != sep
    ensures c in JoinOn(parts, sep) <==> exists k :: 0 <= k < |parts| && c in parts[k]
  {
    if |parts| > 1 {
      JoinedHolds(parts[1..], sep, c);
      if k :| 0 <= k < |parts| && c in parts[k] {
        assert k > 0 ==> c in parts[1..][k - 1];
      }
      if j :| 0 <= j < |parts[1..]| && c in parts[1..][j] {
        assert c in parts[j + 1];
      }
    }
  }

  /** What the client sent holds no newline. */
  predicate OneLine(r: AuditRecord) {
    '\n' !in r.operation && forall k :: 0 <= k < |r.inputNames| ==> '\n' !in r.inputNames[k]
  }

  lemma BodyBreaks(e: Entry)
    requires IsToken(e.time) && IsToken(e.duration)
    ensures '\n' in Body(e) <==> !OneLine(e.record)
  {
    var r := e.record;
    JoinedHolds(Fields(e), '\t', '\n');
    FieldBreaks(e);
    hide Fields, JoinOn, OneLine;
    assert |Fields(e)| == 7 by {
      FieldCount(e);
    }
  }

  lemma FieldCount(e: Entry)
    ensures |Fields(e)| == 7
  {
  }

  lemma FieldBreaks(e: Entry)
    requires IsToken(e.time) && IsToken(e.duration)
    ensures |Fields(e)| == 7
    ensures (exists k :: 0 <= k < 7 && '\n' in Fields(e)[k]) <==> !OneLine(e.record)
  {
    var r := e.record;
    DecimalIsRead(r.peer);
    LabelsAreTokens('\n');
    StatusIsToken(r.decision);
    OutcomeIsToken(r.outcome);
    NamesBreak(r.inputNames);
    OperationBreaks(r.operation);
    hide Decimal, StatusText, OutcomeText, NamesText, OrDash, OneLine;
    assert '\n' !in Fields(e)[0] && '\n' !in Fields(e)[1] && '\n' !in Fields(e)[3];
    assert '\n' !in Fields(e)[4] && '\n' !in Fields(e)[5];
    assert '\n' in Fields(e)[2] <==> '\n' in r.operation;
    assert '\n' in Fields(e)[6] <==> '\n' in NamesText(r.inputNames);
    OneLineMeans(r);
  }

  lemma OneLineMeans(r: AuditRecord)
    ensures OneLine(r) <==> '\n' !in r.operation && '\n' !in NamesText(r.inputNames)
  {
    NamesBreak(r.inputNames);
    hide NamesText;
  }

  lemma OutcomeIsToken(outcome: Option<Code>)
    ensures IsToken(OutcomeText(outcome))
  {
    LabelsAreTokens('\n');
    LabelsAreTokens('\t');
    if outcome.Some? {
      CodeIsToken(outcome.value);
    }
    hide CodeText;
  }

  lemma NamesBreak(names: seq<Text>)
    ensures '\n' in NamesText(names) <==> exists k :: 0 <= k < |names| && '\n' in names[k]
  {
    LabelsAreTokens('\n');
    if names != [] {
      JoinedHolds(names, ',', '\n');
    }
  }

  lemma OperationBreaks(operation: Text)
    ensures '\n' in OrDash(operation) <==> '\n' in operation
  {
    LabelsAreTokens('\n');
  }

  /** A record takes a line of its own, and one only if the client sent no newline. */
  lemma LineExactness(e: Entry)
    requires IsToken(e.time) && IsToken(e.duration)
    ensures Breaks(Line(e)) >= 1 && (Breaks(Line(e)) == 1 <==> OneLine(e.record))
  {
    BodyBreaks(e);
    SomeBreak(Body(e));
    BreaksOfParts(Body(e), ['\n']);
    assert Breaks(['\n']) == 1 by {
      assert ['\n'][..0] == [];
    }
    hide Body, OneLine;
  }

  /** So a log has as many lines as records exactly when no client sent a newline. */
  lemma {:induction false} LinesExactness(entries: seq<Entry>)
    requires forall k :: 0 <= k < |entries| ==> IsToken(entries[k].time) && IsToken(entries[k].duration)
    ensures Breaks(LogText(entries)) >= |entries|
    ensures Breaks(LogText(entries)) == |entries| <==> forall k :: 0 <= k < |entries| ==> OneLine(entries[k].record)
  {
    hide OneLine, Line, Breaks;
    if entries == [] {
      NoLines();
    } else {
      LinesExactness(entries[1..]);
      LineExactness(entries[0]);
      BreaksOfParts(Line(entries[0]), LogText(entries[1..]));
    }
  }

  lemma NoLines()
    ensures Breaks(LogText([])) == 0
  {
  }

  /** A client may send one: whatever the server, a request whose operation holds a newline
      is answered malformed, and its record holds the operation as it was sent. It takes
      more than a line, and no log it is in reads back. */
  lemma BrokenLineIsRecorded(s: Setup, c: Conn, time: Text, duration: Text)
    requires Ordered(c) && c.peer.Some? && c.readable && c.request.Some?
    requires c.request.value.protocol == PROTOCOL_VERSION && '\n' in c.request.value.operation
    requires IsToken(time) && IsToken(duration)
    ensures Session(s, c) == Finish(c, Record(c.peer.value, c.request), RESP_MALFORMED)
    ensures var e := Entry(time, Session(s, c)[0].record, duration);
            && e.record.operation == c.request.value.operation
            && Breaks(Line(e)) > 1
            && forall entries: seq<Entry> :: e in entries ==> ReadLog(LogText(entries)) != Some(entries)
  {
    NewlineIsMalformed(c.request.value);
    DeniedSession(s, c);
    var e := Entry(time, Session(s, c)[0].record, duration);
    assert e.record.operation == c.request.value.operation && !OneLine(e.record) && !Clean(e);
    hide Session, Finish, Record, Line, Clean, OneLine;
    LineExactness(e);
    forall entries: seq<Entry> | e in entries ensures ReadLog(LogText(entries)) != Some(entries) {
      LogExactness(entries);
    }
  }

  lemma NewlineIsMalformed(request: Protocol.Request)
    requires request.protocol == PROTOCOL_VERSION && '\n' in request.operation
    ensures Screened(Some(request)) == Some(RESP_MALFORMED)
  {
    if SplitOperationRef(request.operation).Some? {
      OperationRefIsToken(request.operation);
    }
    hide SplitOperationRef;
  }

  /** Nor does text determine records: an operation that is a dash and one that is missing
      are both malformed, and leave different records with the same line. */
  lemma DashIsAmbiguous(s: Setup, c: Conn, d: Conn, time: Text, duration: Text)
    requires Ordered(c) && Ordered(d) && c.peer.Some? && c.peer == d.peer && c.readable && d.readable
    requires c.request == Some(Protocol.Request.Request(PROTOCOL_VERSION, DASH, map[]))
    requires d.request == Some(Protocol.Request.Request(PROTOCOL_VERSION, [], map[]))
    ensures |Session(s, c)| == |Session(s, d)| == 2 && Session(s, c)[0].Audit? && Session(s, d)[0].Audit?
    ensures Session(s, c)[0].record != Session(s, d)[0].record
    ensures Line(Entry(time, Session(s, c)[0].record, duration)) == Line(Entry(time, Session(s, d)[0].record, duration))
  {
    if SplitOperationRef(DASH).Some? {
      OperationRefIsToken(DASH);
    }
    hide SplitOperationRef;
    DeniedSession(s, c);
    DeniedSession(s, d);
    hide Session, Decimal, StatusText, OutcomeText, NamesText, JoinOn;
  }

  // ----- What the text says about every run -----

  /** The records that became durable, in order. */
  function Durable(log: Log): seq<AuditRecord> {
    if log == [] then []
    else
      var e := log[|log| - 1].1;
      Durable(log[..|log| - 1]) + if e.Audit? && e.durable then [e.record] else []
  }

  lemma {:induction false} DurableIsListed(log: Log, k: nat)
    requires k < |log| && log[k].1.Audit? && log[k].1.durable
    ensures log[k].1.record in Durable(log)
  {
    if k < |log| - 1 {
      DurableIsListed(log[..|log| - 1], k);
    }
  }

  lemma {:induction false} DurableComesFrom(log: Log, r: AuditRecord) returns (k: nat)
    requires r in Durable(log)
    ensures k < |log| && log[k].1 == Audit(r, true)
  {
    var rest := log[..|log| - 1];
    if r in Durable(rest) {
      k := DurableComesFrom(rest, r);
    } else {
      k := |log| - 1;
    }
  }

  /** The entries are the durable records of a run, with times and durations. */
  predicate Transcribes(entries: seq<Entry>, log: Log) {
    |entries| == |Durable(log)| && forall i :: 0 <= i < |entries| ==> entries[i].record == Durable(log)[i]
  }

  /** A record of decision OK is made only for an admitted connection, and is its own. */
  lemma OkRecordIsAdmitted(s: Setup, c: Conn, m: nat)
    requires Ready(s) && Ordered(c) && m < |Session(s, c)|
    requires Session(s, c)[m].Audit? && Session(s, c)[m].record.decision == StatusOk
    ensures Admitted(s, c) && Session(s, c)[m].record == OkRecord(Record(c.peer.value, c.request))
  {
    hide Ready, Session, Record, Ordered, Served, VectorOf, Admitted;
    OneAuditThenOneResponse(s, c);
    assert m == |Session(s, c)| - 2;
    AdmittedMeans(s, c);
    if Admitted(s, c) {
      AdmittedSession(s, c);
    } else {
      ReadySession(s, c);
    }
  }

  lemma AdmittedMeans(s: Setup, c: Conn)
    ensures Admitted(s, c) ==> c.peer.Some? && c.readable
  {
  }

  /** Where every record is clean, an OK line of the text stands for a connection that was
      admitted and made that record. */
  lemma EveryOkLineIsReal(s: Setup, conns: nat -> Conn, log: Log, entries: seq<Entry>, i: nat) returns (k: nat)
    requires Ready(s) && Interleaved(s, conns, log) && Transcribes(entries, log)
    requires forall j :: 0 <= j < |entries| ==> Clean(entries[j])
    requires ReadLog(LogText(entries)).Some? && i < |ReadLog(LogText(entries)).value|
    requires ReadLog(LogText(entries)).value[i].record.decision == StatusOk
    ensures k < |log| && Admitted(s, conns(log[k].0))
    ensures var c := conns(log[k].0);
            && log[k].1 == Audit(OkRecord(Record(c.peer.value, c.request)), true)
            && ReadLog(LogText(entries)).value[i].record == OkRecord(Record(c.peer.value, c.request))
  {
    LogExactness(entries);
    hide ReadLog, LogText, Clean, Ready, Interleaved, Session, Ordered, Count, Admitted, Record;
    k := DurableComesFrom(log, entries[i].record);
    Turn(s, conns, log, k);
    OkRecordIsAdmitted(s, conns(log[k].0), Count(log, k, log[k].0));
  }

  /** And every OK response has its line there. */
  lemma EveryOkIsRead(s: Setup, conns: nat -> Conn, log: Log, entries: seq<Entry>, k: nat) returns (i: nat)
    requires Ready(s) && Interleaved(s, conns, log) && Transcribes(entries, log)
    requires forall j :: 0 <= j < |entries| ==> Clean(entries[j])
    requires k < |log| && log[k].1.Respond? && log[k].1.response.status == StatusOk
    ensures ReadLog(LogText(entries)).Some? && i < |ReadLog(LogText(entries)).value| && conns(log[k].0).peer.Some?
    ensures var c := conns(log[k].0);
            ReadLog(LogText(entries)).value[i].record == OkRecord(Record(c.peer.value, c.request))
  {
    LogExactness(entries);
    hide ReadLog, LogText, Clean, Ready, Interleaved, Record;
    var j := EveryOkIsAudited(s, conns, log, k);
    DurableIsListed(log, j);
    i :| 0 <= i < |Durable(log)| && Durable(log)[i] == log[j].1.record;
  }
}
