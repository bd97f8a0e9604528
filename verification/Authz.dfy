/** Which kernel-verified peer may invoke which operation string (internal/broker/authz.go). */
module Authz {
  import opened Bytes
  import opened Consumer
  import opened Protocol

  const AUTHZ_SCHEMA_VERSION: int := 1

  type Uid = u: nat | u < 0x1_0000_0000

  datatype AuthzEntry = AuthzEntry(uid: Uid, operations: seq<Text>)

  datatype AuthzFile = AuthzFile(schema: int, entries: seq<AuthzEntry>)

  predicate DistinctOperations(e: AuthzEntry) {
    forall i, j :: 0 <= i < j < |e.operations| ==> e.operations[i] != e.operations[j]
  }

  predicate ValidEntry(e: AuthzEntry) {
    && e.operations != []
    && DistinctOperations(e)
    && forall i :: 0 <= i < |e.operations| ==> SplitOperationRef(e.operations[i]).Some?
  }

  predicate ValidFile(a: AuthzFile) {
    && a.schema == AUTHZ_SCHEMA_VERSION
    && a.entries != []
    && (forall i, j :: 0 <= i < j < |a.entries| ==> a.entries[i].uid != a.entries[j].uid)
    && forall i :: 0 <= i < |a.entries| ==> ValidEntry(a.entries[i])
  }

  /** The structural checks of Parse, on the decoded file. */
  method Parse(a: AuthzFile) returns (ok: bool)
    ensures ok <==> ValidFile(a)
  {
    hide SplitOperationRef;
    if a.schema != AUTHZ_SCHEMA_VERSION || a.entries == [] {
      return false;
    }
    var seenUid: set<Uid> := {};
    for i := 0 to |a.entries|
      invariant forall u :: u in seenUid <==> exists k :: 0 <= k < i && a.entries[k].uid == u
      invariant forall j, k :: 0 <= j < k < i ==> a.entries[j].uid != a.entries[k].uid
      invariant forall k :: 0 <= k < i ==> ValidEntry(a.entries[k])
    {
      var e := a.entries[i];
      if e.uid in seenUid {
        return false;
      }
      seenUid := seenUid + {e.uid};
      if e.operations == [] {
        return false;
      }
      var seenOp: set<Text> := {};
      for m := 0 to |e.operations|
        invariant forall op :: op in seenOp <==> exists k :: 0 <= k < m && e.operations[k] == op
        invariant forall j, k :: 0 <= j < k < m ==> e.operations[j] != e.operations[k]
        invariant forall k :: 0 <= k < m ==> SplitOperationRef(e.operations[k]).Some?
      {
        var op := e.operations[m];
        if op in seenOp {
          return false;
        }
        seenOp := seenOp + {op};
        if SplitOperationRef(op).None? {
          return false;
        }
      }
    }
    return true;
  }

  /** Every operation an entry names is declared by a loaded definition. */
  predicate Resolves(op: Text, defs: map<Text, Definition>) {
    match SplitOperationRef(op)
    case None => false
    case Some((consumer, operation)) => consumer in defs && operation in defs[consumer].operations
  }

  predicate Validate(a: AuthzFile, defs: map<Text, Definition>) {
    forall i :: 0 <= i < |a.entries| ==>
      forall k :: 0 <= k < |a.entries[i].operations| ==> Resolves(a.entries[i].operations[k], defs)
  }

  function DecideFrom(entries: seq<AuthzEntry>, uid: Uid, operation: Text): bool {
    if entries == [] then false
    else if entries[0].uid != uid then DecideFrom(entries[1..], uid, operation)
    else operation in entries[0].operations
  }

  /** Whether uid may invoke the operation string: its first entry decides. */
  predicate Decide(a: AuthzFile, uid: Uid, operation: Text) { DecideFrom(a.entries, uid, operation) }

  predicate Grants(e: AuthzEntry, uid: Uid, operation: Text) { e.uid == uid && operation in e.operations }

  lemma {:induction false} DecideFromIsGrant(entries: seq<AuthzEntry>, uid: Uid, operation: Text)
    requires forall i, j :: 0 <= i < j < |entries| ==> entries[i].uid != entries[j].uid
    ensures DecideFrom(entries, uid, operation) <==> exists e :: e in entries && Grants(e, uid, operation)
  {
    if entries != [] {
      var rest := entries[1..];
      assert entries == [entries[0]] + rest;
      if entries[0].uid != uid {
        DecideFromIsGrant(rest, uid, operation);
      } else {
        assert entries[0] in entries;
        if e :| e in entries && Grants(e, uid, operation) {
          var k :| 0 <= k < |entries| && entries[k] == e;
          assert k == 0;
        }
      }
    }
  }

  /** In an accepted file the first entry is the only one: a peer may invoke an operation
      exactly when some entry grants it. */
  lemma DecideIsGrant(a: AuthzFile, uid: Uid, operation: Text)
    requires ValidFile(a)
    ensures Decide(a, uid, operation) <==> exists e :: e in a.entries && Grants(e, uid, operation)
  {
    DecideFromIsGrant(a.entries, uid, operation);
  }

  /** So two accepted files with the same entries, in whatever order, decide alike. */
  lemma DecideIgnoresOrder(a: AuthzFile, b: AuthzFile, uid: Uid, operation: Text)
    requires ValidFile(a) && ValidFile(b) && multiset(a.entries) == multiset(b.entries)
    ensures Decide(a, uid, operation) == Decide(b, uid, operation)
  {
    DecideIsGrant(a, uid, operation);
    DecideIsGrant(b, uid, operation);
    assert forall e :: e in a.entries <==> e in multiset(a.entries);
    assert forall e :: e in b.entries <==> e in multiset(b.entries);
  }

  /** A repeated uid, which Parse refuses, would make the order decide. */
  lemma RepeatedUidDependsOnOrder(uid: Uid, operation: Text, other: Text)
    requires operation != other
    ensures var e, f := AuthzEntry(uid, [operation]), AuthzEntry(uid, [other]);
            Decide(AuthzFile(1, [e, f]), uid, operation) != Decide(AuthzFile(1, [f, e]), uid, operation)
  {
  }

  /** With the file validated against the definitions, whatever is authorized resolves. */
  lemma AuthorizedResolves(a: AuthzFile, defs: map<Text, Definition>, uid: Uid, operation: Text)
    requires ValidFile(a) && Validate(a, defs) && Decide(a, uid, operation)
    ensures Resolves(operation, defs)
  {
    hide SplitOperationRef;
    DecideIsGrant(a, uid, operation);
    var e :| e in a.entries && Grants(e, uid, operation);
    var i :| 0 <= i < |a.entries| && a.entries[i] == e;
    var k :| 0 <= k < |e.operations| && e.operations[k] == operation;
  }
}
