/** Operation references and the closed response vocabulary (internal/broker/protocol.go). */
module Protocol {
  import opened Bytes
  import opened Consumer

  const PROTOCOL_VERSION: int := 1

  datatype Request = Request(protocol: int, operation: Text, inputs: map<Text, Text>)

  datatype Status = StatusOk | StatusDenied | StatusInvalid | StatusError | StatusUnavailable

  datatype Code =
    | UnsupportedProtocol | MalformedRequest | InvalidInput | NotAuthorized
    | ConsumerFailed | ResultTooLarge | TimedOut | BrokerUnavailable

  /** reason is the refused input an InvalidInput message names; every other message is fixed. */
  datatype ErrorBody = ErrorBody(code: Code, reason: Option<ArgvResult>)

  datatype Response = Response(status: Status, result: Text, error: Option<ErrorBody>)

  function OkResponse(result: Text): Response { Response(StatusOk, result, None) }

  function ErrResponse(status: Status, code: Code): Response { Response(status, [], Some(ErrorBody(code, None))) }

  const RESP_DENIED := ErrResponse(StatusDenied, NotAuthorized)
  const RESP_MALFORMED := ErrResponse(StatusInvalid, MalformedRequest)
  const RESP_UNSUPPORTED_PROTOCOL := ErrResponse(StatusInvalid, UnsupportedProtocol)
  const RESP_CONSUMER_FAILED := ErrResponse(StatusError, ConsumerFailed)
  const RESP_RESULT_TOO_LARGE := ErrResponse(StatusError, ResultTooLarge)
  const RESP_TIMEOUT := ErrResponse(StatusError, TimedOut)
  const RESP_UNAVAILABLE := ErrResponse(StatusUnavailable, BrokerUnavailable)

  function RespInvalidInput(reason: ArgvResult): Response {
    Response(StatusInvalid, [], Some(ErrorBody(InvalidInput, Some(reason))))
  }

  // ----- Operation references -----

  /** Two valid names joined by one dot: the whole of operationRE. */
  predicate IsOperationRef(s: Text) {
    exists i :: 0 <= i < |s| && s[i] == '.' && ValidName(s[..i]) && ValidName(s[i + 1..])
  }

  function SplitOperationRef(s: Text): Option<(Text, Text)> {
    if !IsOperationRef(s) then None
    else
      var i := IndexByte(s, '.');
      Some((s[..i], s[i + 1..]))
  }

  /** Splitting undoes joining two valid names. */
  lemma SplitAfterJoin(consumer: Text, operation: Text)
    requires ValidName(consumer) && ValidName(operation)
    ensures SplitOperationRef(consumer + "." + operation) == Some((consumer, operation))
  {
    var s := consumer + "." + operation;
    var k := |consumer|;
    assert s[..k] == consumer && s[k + 1..] == operation && s[k] == '.';
    assert forall j :: 0 <= j < k ==> s[j] == consumer[j] && NameByte(consumer[j]);
    FirstIndex(s, '.', k);
  }

  lemma FirstIndex(s: Text, c: Byte, k: nat)
    requires k < |s| && s[k] == c && forall j :: 0 <= j < k ==> s[j] != c
    ensures IndexByte(s, c) == k
  {
  }

  /** And joining undoes splitting: the two halves are the only valid names that make s. */
  lemma JoinAfterSplit(s: Text)
    requires SplitOperationRef(s).Some?
    ensures var (consumer, operation) := SplitOperationRef(s).value;
            ValidName(consumer) && ValidName(operation) && s == consumer + "." + operation
  {
    var u, v := RefHalves(s);
    hide *;
    SplitAfterJoin(u, v);
  }

  lemma RefHalves(s: Text) returns (u: Text, v: Text)
    requires SplitOperationRef(s).Some?
    ensures ValidName(u) && ValidName(v) && s == u + "." + v
  {
    hide ValidName;
    var i :| 0 <= i < |s| && s[i] == '.' && ValidName(s[..i]) && ValidName(s[i + 1..]);
    u, v := s[..i], s[i + 1..];
  }
}
