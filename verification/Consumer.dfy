/**
 From a client's named operation and inputs to an argument vector
 (internal/consumer/consumer.go).
 */
module Consumer {
  import opened Bytes

  // ----- Names -----

  predicate NameStart(c: Byte) { 'a' <= c <= 'z' || '0' <= c <= '9' }

  predicate NameByte(c: Byte) { NameStart(c) || c == '_' || c == '-' }

  predicate ValidName(s: Text) {
    s != [] && NameStart(s[0]) && forall k :: 0 <= k < |s| ==> NameByte(s[k])
  }

  // ----- Templates -----

  /** One byte of an argv template, or one ${name} placeholder. */
  datatype Piece = Lit(c: Byte) | Hole(name: Text)

  predicate Opens(s: Text) { |s| >= 2 && s[0] == '$' && s[1] == '{' }

  /** A template's pieces, or None where a placeholder is not closed. */
  function Split(s: Text): Option<seq<Piece>>
    decreases |s|
  {
    if s == [] then Some([])
    else if !Opens(s) then Joined([Lit(s[0])], Split(s[1..]))
    else
      match Cut(s[2..], '}')
      case None => None
      case Some((name, after)) =>
        assert |s[2..]| == |name| + 1 + |after|;
        Joined([Hole(name)], Split(after))
  }

  function Joined(done: seq<Piece>, rest: Option<seq<Piece>>): Option<seq<Piece>> {
    if rest.None? then None else Some(done + rest.value)
  }

  function Print(pieces: seq<Piece>): Text {
    if pieces == [] then []
    else (match pieces[0] case Lit(c) => [c] case Hole(name) => "${" + name + "}") + Print(pieces[1..])
  }

  function Holes(pieces: seq<Piece>): seq<Text> {
    if pieces == [] then []
    else (match pieces[0] case Lit(_) => [] case Hole(name) => [name]) + Holes(pieces[1..])
  }

  /** Each placeholder's value in its place, taken as it is. */
  function Fill(pieces: seq<Piece>, values: map<Text, Text>): Text
    requires forall n :: n in Holes(pieces) ==> n in values
  {
    if pieces == [] then []
    else
      (match pieces[0] case Lit(c) => [c] case Hole(name) => values[name]) + Fill(pieces[1..], values)
  }

  /** Printing the pieces of a template gives the template back. */
  lemma {:induction false} PrintAfterSplit(s: Text)
    requires Split(s).Some?
    ensures Print(Split(s).value) == s
    decreases |s|
  {
    if s != [] {
      var pieces := Split(s).value;
      if !Opens(s) {
        PrintAfterSplit(s[1..]);
        assert pieces[1..] == Split(s[1..]).value;
      } else {
        var (name, after) := Cut(s[2..], '}').value;
        assert s[2..] == name + ['}'] + after;
        PrintAfterSplit(after);
        assert pieces[1..] == Split(after).value;
        assert s == "${" + (name + ['}'] + after);
      }
    }
  }

  /** Pieces no text would read differently: no `}` in a name, no literal "${". */
  predicate Readable(pieces: seq<Piece>) {
    && (forall k :: 0 <= k < |pieces| && pieces[k].Hole? ==> '}' !in pieces[k].name)
    && (forall k :: 0 <= k < |pieces| - 1 ==> !(pieces[k] == Lit('$') && pieces[k + 1] == Lit('{')))
  }

  /** And splitting what readable pieces print gives the pieces back. */
  lemma {:induction false} SplitAfterPrint(pieces: seq<Piece>)
    requires Readable(pieces)
    ensures Split(Print(pieces)) == Some(pieces)
  {
    if pieces != [] {
      var rest := pieces[1..];
      assert forall k :: 0 <= k < |rest| ==> rest[k] == pieces[k + 1];
      SplitAfterPrint(rest);
      assert pieces == [pieces[0]] + rest;
      match pieces[0] {
        case Lit(c) =>
          if c == '$' && Print(rest) != [] && Print(rest)[0] == '{' {
            FirstPrinted(rest);
          }
          SplitAfterLiteral(c, Print(rest));
        case Hole(name) =>
          SplitAfterHole(name, Print(rest));
      }
    }
  }

  lemma SplitAfterLiteral(c: Byte, s: Text)
    requires c == '$' && s != [] ==> s[0] != '{'
    ensures Split([c] + s) == Joined([Lit(c)], Split(s))
  {
  }

  lemma SplitAfterHole(name: Text, s: Text)
    requires '}' !in name
    ensures Split("${" + name + "}" + s) == Joined([Hole(name)], Split(s))
  {
    CutAtFirst(name, '}', s);
    hide Cut;
    assert ("${" + name + "}" + s)[2..] == name + ['}'] + s;
  }

  lemma FirstPrinted(pieces: seq<Piece>)
    requires Print(pieces) != [] && Print(pieces)[0] == '{'
    ensures pieces != [] && pieces[0] == Lit('{')
  {
  }

  lemma {:induction false} HolesOfParts(x: seq<Piece>, y: seq<Piece>)
    ensures Holes(x + y) == Holes(x) + Holes(y)
  {
    if x == [] {
      assert x + y == y;
    } else {
      assert (x + y)[1..] == x[1..] + y;
      HolesOfParts(x[1..], y);
    }
  }

  lemma HolesOneMore(x: seq<Piece>, p: Piece)
    ensures Holes(x + [p]) == Holes(x) + if p.Lit? then [] else [p.name]
  {
    HolesOfParts(x, [p]);
  }

  lemma {:induction false} FillOneMore(x: seq<Piece>, p: Piece, values: map<Text, Text>)
    requires forall n :: n in Holes(x) ==> n in values
    requires p.Hole? ==> p.name in values
    ensures Holes(x + [p]) == Holes(x) + if p.Lit? then [] else [p.name]
    ensures Fill(x + [p], values) == Fill(x, values) + if p.Lit? then [p.c] else values[p.name]
  {
    HolesOneMore(x, p);
    if x == [] {
      assert x + [p] == [p];
    } else {
      assert (x + [p])[1..] == x[1..] + [p];
      FillOneMore(x[1..], p, values);
    }
  }

  lemma JoinedTwice(done: seq<Piece>, p: Piece, rest: Option<seq<Piece>>)
    ensures Joined(done, Joined([p], rest)) == Joined(done + [p], rest)
  {
    if rest.Some? {
      Regroup(done, [p], rest.value);
    }
  }

  /** What one turn of either scanner reads at i. */
  lemma LiteralTurn(s: Text, i: nat, done: seq<Piece>)
    requires i < |s| && (s[i] != '$' || i + 1 >= |s| || s[i + 1] != '{')
    ensures Joined(done, Split(s[i..])) == Joined(done + [Lit(s[i])], Split(s[i + 1..]))
  {
    var t := s[i..];
    assert t[0] == s[i] && t[1..] == s[i + 1..] && (|t| >= 2 ==> t[1] == s[i + 1]);
    JoinedTwice(done, Lit(s[i]), Split(s[i + 1..]));
  }

  lemma CutIsIndex(s: Text, c: Byte)
    ensures var i := IndexByte(s, c);
            Cut(s, c) == if i < 0 then None else Some((s[..i], s[i + 1..]))
  {
    hide Cut, IndexByte;
    var i := IndexByte(s, c);
    if i >= 0 {
      assert s == s[..i] + [c] + s[i + 1..];
      CutAtFirst(s[..i], c, s[i + 1..]);
    }
  }

  lemma SplitOpened(t: Text, u: Text)
    requires Opens(t) && u == t[2..]
    ensures var end := IndexByte(u, '}');
            Split(t) == if end < 0 then None else Joined([Hole(u[..end])], Split(u[end + 1..]))
  {
    CutIsIndex(u, '}');
  }

  lemma HoleTurn(s: Text, i: nat, done: seq<Piece>, u: Text)
    requires i + 1 < |s| && s[i] == '$' && s[i + 1] == '{' && u == s[i + 2..]
    ensures var end := IndexByte(u, '}');
            Joined(done, Split(s[i..]))
            == if end < 0 then None else Joined(done + [Hole(u[..end])], Split(u[end + 1..]))
  {
    assert Opens(s[i..]) && u == s[i..][2..];
    SplitOpened(s[i..], u);
    var end := IndexByte(u, '}');
    if end >= 0 {
      JoinedTwice(done, Hole(u[..end]), Split(u[end + 1..]));
    }
  }

  lemma SliceOfRest(s: Text, i: nat, end: nat)
    requires i + 2 + end < |s|
    ensures s[i + 2..][..end] == s[i + 2..i + 2 + end] && s[i + 2..][end + 1..] == s[i + 3 + end..]
  {
  }

  lemma NothingDone(s: Text)
    ensures Joined([], Split(s[0..])) == Split(s)
  {
    assert s[0..] == s;
    if Split(s).Some? {
      assert [] + Split(s).value == Split(s).value;
    }
  }

  lemma NoHoles(values: map<Text, Text>)
    ensures Holes([]) == [] && Fill([], values) == []
  {
  }

  lemma HoleIsFound(done: seq<Piece>, name: Text, rest: Option<seq<Piece>>)
    ensures var all := Joined(done + [Hole(name)], rest);
            all.Some? ==> name in Holes(all.value)
  {
    if rest.Some? {
      HolesOfParts(done, [Hole(name)]);
      HolesOfParts(done + [Hole(name)], rest.value);
    }
  }

  /** The names a template refers to, or None where it is malformed. */
  method Placeholders(s: Text) returns (names: Option<seq<Text>>)
    ensures names.Some? <==> Split(s).Some? && forall n :: n in Holes(Split(s).value) ==> ValidName(n)
    ensures names.Some? ==> names.value == Holes(Split(s).value)
  {
    hide *;
    var found: seq<Text> := [];
    var i := 0;
    ghost var done: seq<Piece> := [];
    NothingDone(s);
    NoHoles(map[]);
    while i < |s|
      invariant 0 <= i <= |s|
      invariant Split(s) == Joined(done, Split(s[i..]))
      invariant found == Holes(done) && forall n :: n in found ==> ValidName(n)
    {
      if s[i] != '$' || i + 1 >= |s| || s[i + 1] != '{' {
        LiteralTurn(s, i, done);
        HolesOneMore(done, Lit(s[i]));
        done := done + [Lit(s[i])];
        i := i + 1;
        continue;
      }
      HoleTurn(s, i, done, s[i + 2..]);
      var end := IndexByte(s[i + 2..], '}');
      if end < 0 {
        return None;
      }
      SliceOfRest(s, i, end);
      var name := s[i + 2..i + 2 + end];
      HoleIsFound(done, name, Split(s[i + 3 + end..]));
      if !ValidName(name) {
        return None;
      }
      HolesOneMore(done, Hole(name));
      found := found + [name];
      done := done + [Hole(name)];
      i := i + 3 + end;
    }
    NothingLeft(s, i, done);
    return Some(found);
  }

  lemma NothingLeft(s: Text, i: nat, done: seq<Piece>)
    requires i == |s|
    ensures Joined(done, Split(s[i..])) == Some(done)
  {
    assert Split(s[i..]) == Some([]) && done + [] == done;
  }

  /** A template with its values in, or None where it is not closed or a value is missing. */
  method Substitute(s: Text, values: map<Text, Text>) returns (r: Option<Text>)
    ensures r.Some? <==> Split(s).Some? && forall n :: n in Holes(Split(s).value) ==> n in values
    ensures r.Some? ==> r.value == Fill(Split(s).value, values)
    ensures forall x: array<Byte> :: x.Length > 0 ==> !fresh(x)
  {
    hide *;
    var b: Text := [];
    var i := 0;
    ghost var done: seq<Piece> := [];
    NothingDone(s);
    NoHoles(values);
    while i < |s|
      invariant 0 <= i <= |s|
      invariant Split(s) == Joined(done, Split(s[i..]))
      invariant forall n :: n in Holes(done) ==> n in values
      invariant b == Fill(done, values)
      invariant forall x: array<Byte> :: x.Length > 0 ==> !fresh(x)
    {
      if s[i] != '$' || i + 1 >= |s| || s[i + 1] != '{' {
        LiteralTurn(s, i, done);
        FillOneMore(done, Lit(s[i]), values);
        b := b + [s[i]];
        done := done + [Lit(s[i])];
        i := i + 1;
        continue;
      }
      HoleTurn(s, i, done, s[i + 2..]);
      var end := IndexByte(s[i + 2..], '}');
      if end < 0 {
        return None;
      }
      SliceOfRest(s, i, end);
      var name := s[i + 2..i + 2 + end];
      HoleIsFound(done, name, Split(s[i + 3 + end..]));
      if name !in values {
        return None;
      }
      FillOneMore(done, Hole(name), values);
      b := b + values[name];
      done := done + [Hole(name)];
      i := i + 3 + end;
    }
    NothingLeft(s, i, done);
    return Some(b);
  }

  // ----- Definitions -----

  /** re is the anchored pattern once it has been compiled, a predicate on whole values. */
  datatype Input = Input(pattern: Text, maxLength: int, optional: bool, allowLeadingDash: bool,
                         re: Option<Text -> bool>)

  datatype Operation = Operation(
    argv: seq<Text>, inputs: map<Text, Input>, response: Text, timeoutSeconds: int, responseConfig: map<Text, Text>)

  datatype Definition = Definition(
    schema: int, name: Text, executable: Text, profile: Text, operations: map<Text, Operation>)

  const SCHEMA_VERSION: int := 1
  const RESPONSE_JSON: Text := "json"
  const RESPONSE_TEXT: Text := "text"
  const DEFAULT_MAX_INPUT_LENGTH: nat := 256
  const MAX_RESPONSE_CONFIG_VALUE: nat := 1024

  /** Compiling an anchored pattern, which may fail. */
  type Compiler = Text -> Option<Text -> bool>

  predicate ValidInput(input: Input, compile: Compiler) {
    input.pattern != [] && input.maxLength >= 0 && compile(input.pattern).Some?
  }

  predicate ValidResponseConfig(config: map<Text, Text>) {
    forall k :: k in config ==>
      && ValidName(k)
      && 0 < |config[k]| <= MAX_RESPONSE_CONFIG_VALUE
      && forall i :: 0 <= i < |config[k]| ==> config[k][i] as int >= 0x20 && config[k][i] as int != 0x7f
  }

  predicate ValidTemplate(t: Text, inputs: map<Text, Input>) {
    Split(t).Some? && forall n :: n in Holes(Split(t).value) ==> ValidName(n) && n in inputs
  }

  /** Some template refers to the input. */
  predicate Referenced(argv: seq<Text>, name: Text) {
    exists i :: 0 <= i < |argv| && Split(argv[i]).Some? && name in Holes(Split(argv[i]).value)
  }

  ghost predicate ValidOperation(op: Operation, compile: Compiler) {
    && (op.response == RESPONSE_JSON || op.response == RESPONSE_TEXT)
    && op.timeoutSeconds >= 0
    && ValidResponseConfig(op.responseConfig)
    && (forall n :: n in op.inputs ==> ValidName(n) && ValidInput(op.inputs[n], compile))
    && (forall i :: 0 <= i < |op.argv| ==> ValidTemplate(op.argv[i], op.inputs))
    && (forall n :: n in op.inputs ==> Referenced(op.argv, n))
  }

  ghost function CompiledInputs(inputs: map<Text, Input>, compile: Compiler): map<Text, Input> {
    map n | n in inputs :: inputs[n].(re := compile(inputs[n].pattern))
  }

  /** The operation with every input pattern compiled. */
  ghost function Compiled(op: Operation, compile: Compiler): Operation {
    op.(inputs := CompiledInputs(op.inputs, compile))
  }

  /** Checks the declared inputs and stores their compiled patterns back. */
  method CompileInputs(inputs: map<Text, Input>, compile: Compiler) returns (r: Option<map<Text, Input>>)
    ensures r.Some? <==> forall n :: n in inputs ==> ValidName(n) && ValidInput(inputs[n], compile)
    ensures r.Some? ==> r.value == CompiledInputs(inputs, compile)
  {
    hide ValidName, ValidInput, AtMost;
    var rest := inputs.Keys;
    var compiled: map<Text, Input> := map[];
    while rest != {}
      invariant rest <= inputs.Keys && compiled.Keys == inputs.Keys - rest
      invariant forall n :: n in compiled ==> ValidName(n) && ValidInput(inputs[n], compile)
      invariant forall n :: n in compiled ==> compiled[n] == inputs[n].(re := compile(inputs[n].pattern))
    {
      var n :| n in rest;
      var input := inputs[n];
      if !ValidName(n) || !ValidInput(input, compile) {
        return None;
      }
      compiled := compiled[n := input.(re := compile(input.pattern))];
      rest := rest - {n};
    }
    return Some(compiled);
  }

  /** The inputs the templates refer to, or None where one is malformed or undeclared. */
  method CheckTemplates(argv: seq<Text>, inputs: map<Text, Input>) returns (r: Option<set<Text>>)
    ensures r.Some? <==> forall i :: 0 <= i < |argv| ==> ValidTemplate(argv[i], inputs)
    ensures r.Some? ==> forall n: Text :: n in r.value <==> Referenced(argv, n)
  {
    var referenced: set<Text> := {};
    hide Split, Holes, ValidName, Referenced;
    NoneReferenced();
    for i := 0 to |argv|
      invariant forall k :: 0 <= k < i ==> ValidTemplate(argv[k], inputs)
      invariant forall n: Text :: n in referenced <==> Referenced(argv[..i], n)
    {
      var holes := Placeholders(argv[i]);
      ReferencedOneMore(argv, i);
      if holes.None? || exists n :: n in holes.value && n !in inputs {
        return None;
      }
      referenced := referenced + set n | n in holes.value;
    }
    assert argv[..|argv|] == argv;
    return Some(referenced);
  }

  lemma NoneReferenced()
    ensures forall n: Text :: !Referenced([], n)
  {
  }

  method ValidateOperation(op: Operation, compile: Compiler) returns (r: Option<Operation>)
    ensures r.Some? <==> ValidOperation(op, compile)
    ensures r.Some? ==> r.value == Compiled(op, compile)
  {
    hide ValidResponseConfig, ValidName, ValidInput, ValidTemplate, Referenced, CompiledInputs;
    if op.response != RESPONSE_JSON && op.response != RESPONSE_TEXT {
      return None;
    }
    if op.timeoutSeconds < 0 || !ValidResponseConfig(op.responseConfig) {
      return None;
    }
    var inputs := CompileInputs(op.inputs, compile);
    if inputs.None? {
      return None;
    }
    var referenced := CheckTemplates(op.argv, op.inputs);
    if referenced.None? || exists n :: n in op.inputs && n !in referenced.value {
      return None;
    }
    return Some(op.(inputs := inputs.value));
  }

  lemma ReferencedOneMore(argv: seq<Text>, i: nat)
    requires i < |argv|
    ensures forall n: Text :: Referenced(argv[..i + 1], n) <==>
              Referenced(argv[..i], n) || (Split(argv[i]).Some? && n in Holes(Split(argv[i]).value))
  {
    var before, now := argv[..i], argv[..i + 1];
    hide Split, Holes;
    forall n: Text | Referenced(before, n) ensures Referenced(now, n) {
      var k :| 0 <= k < |before| && Split(before[k]).Some? && n in Holes(Split(before[k]).value);
      assert now[k] == before[k];
    }
    assert now[i] == argv[i];
  }

  /** A path component filepath.Clean leaves alone. */
  predicate CleanPart(s: Text) { s != [] && s != "." && s != ".." }

  predicate CleanParts(s: Text)
    decreases |s|
  {
    match Cut(s, '/')
    case None => CleanPart(s)
    case Some((part, rest)) =>
      assert |s| == |part| + 1 + |rest|;
      CleanPart(part) && CleanParts(rest)
  }

  /** An absolute, clean path. */
  predicate ValidExecutable(path: Text) {
    path != [] && path[0] == '/' && (path == "/" || CleanParts(path[1..]))
  }

  lemma {:induction false} CleanPartsExactness(s: Text)
    ensures CleanParts(s) <==> forall k :: 0 <= k < |SplitOn(s, '/')| ==> CleanPart(SplitOn(s, '/')[k])
    decreases |s|
  {
    match Cut(s, '/') {
      case None =>
        assert SplitOn(s, '/') == [s];
        assert SplitOn(s, '/')[0] == s;
      case Some((part, rest)) =>
        assert |s| == |part| + 1 + |rest|;
        CleanPartsExactness(rest);
        hide CleanPart, CleanParts, Cut, SplitOn;
        PartsStep(s, part, rest);
    }
  }

  lemma PartsStep(s: Text, part: Text, rest: Text)
    requires Cut(s, '/') == Some((part, rest))
    ensures SplitOn(s, '/') == [part] + SplitOn(rest, '/')
    ensures CleanParts(s) <==> CleanPart(part) && CleanParts(rest)
    ensures (forall k :: 0 <= k < |SplitOn(s, '/')| ==> CleanPart(SplitOn(s, '/')[k])) <==>
              CleanPart(part) && forall k :: 0 <= k < |SplitOn(rest, '/')| ==> CleanPart(SplitOn(rest, '/')[k])
  {
    assert |s| == |part| + 1 + |rest|;
    var parts, more := SplitOn(s, '/'), SplitOn(rest, '/');
    assert parts == [part] + more;
    hide CleanPart, Cut, SplitOn;
    assert parts[0] == part && forall k :: 0 <= k < |more| ==> parts[k + 1] == more[k];
  }

  /** An executable is the root, or a slash and components joined by single slashes, none
      of them empty, a dot or two dots. */
  lemma ExecutableExactness(path: Text)
    ensures ValidExecutable(path) <==>
              || path == "/"
              || exists parts: seq<Text> :: IsCleanPath(path, parts)
  {
    if ValidExecutable(path) && path != "/" {
      var t := path[1..];
      CleanPartsExactness(t);
      SplitPartsAreFree(t, '/');
      JoinAfterSplitOn(t, '/');
      hide CleanPart, CleanParts, SplitOn, JoinOn;
      assert path == "/" + t;
      assert IsCleanPath(path, SplitOn(t, '/'));
    }
    if parts: seq<Text> :| IsCleanPath(path, parts) {
      CleanPartsExactness(path[1..]);
      SplitAfterJoinOn(parts, '/');
      hide CleanPart, CleanParts, SplitOn, JoinOn;
      assert path[1..] == JoinOn(parts, '/');
    }
  }

  ghost predicate IsCleanPath(path: Text, parts: seq<Text>) {
    && parts != [] && path == "/" + JoinOn(parts, '/')
    && forall k :: 0 <= k < |parts| ==> '/' !in parts[k] && parts[k] != [] && parts[k] != "." && parts[k] != ".."
  }

  predicate ValidHeader(d: Definition) {
    && 0 <= d.schema <= SCHEMA_VERSION
    && ValidName(d.name)
    && ValidExecutable(d.executable)
    && ValidName(d.profile)
    && d.operations.Keys != {}
  }

  ghost predicate ValidDefinition(d: Definition, compile: Compiler) {
    && ValidHeader(d)
    && forall n :: n in d.operations ==> ValidName(n) && ValidOperation(d.operations[n], compile)
  }

  ghost function CompiledDefinition(d: Definition, compile: Compiler): Definition {
    d.(operations := map n | n in d.operations :: Compiled(d.operations[n], compile))
  }

  method ValidateDefinition(d: Definition, compile: Compiler) returns (r: Option<Definition>)
    ensures r.Some? <==> ValidDefinition(d, compile)
    ensures r.Some? ==> r.value == CompiledDefinition(d, compile)
  {
    hide ValidHeader, ValidName, ValidOperation, Compiled;
    if !ValidHeader(d) {
      return None;
    }
    var rest := d.operations.Keys;
    var operations: map<Text, Operation> := map[];
    while rest != {}
      invariant rest <= d.operations.Keys && operations.Keys == d.operations.Keys - rest
      invariant forall n :: n in operations ==> ValidName(n) && ValidOperation(d.operations[n], compile)
      invariant forall n :: n in operations ==> operations[n] == Compiled(d.operations[n], compile)
    {
      var n :| n in rest;
      if !ValidName(n) {
        return None;
      }
      var op := ValidateOperation(d.operations[n], compile);
      if op.None? {
        return None;
      }
      operations := operations[n := op.value];
      rest := rest - {n};
    }
    return Some(d.(operations := operations));
  }

  /** Whether the file decodes to a valid definition. */
  ghost predicate Loads(file: Option<Definition>, compile: Compiler) {
    file.Some? && ValidDefinition(file.value, compile)
  }

  /** Every file loads, and no two declare the same name. */
  ghost predicate Loadable(files: seq<Option<Definition>>, n: nat, compile: Compiler)
    requires n <= |files|
  {
    && (forall i :: 0 <= i < n ==> Loads(files[i], compile))
    && (forall i, j :: 0 <= i < j < n ==> files[i].value.name != files[j].value.name)
  }

  /** The first n files' definitions, keyed by the name each declares. */
  ghost function Loaded(files: seq<Option<Definition>>, n: nat, compile: Compiler): map<Text, Definition>
    requires n <= |files| && Loadable(files, n, compile)
  {
    if n == 0 then map[]
    else
      var file := files[n - 1].value;
      Loaded(files, n - 1, compile)[file.name := CompiledDefinition(file, compile)]
  }

  /** A loaded definition is the one file that declares its name, validated and compiled. */
  lemma {:induction false} LoadedIsExact(files: seq<Option<Definition>>, n: nat, compile: Compiler, name: Text)
    requires n <= |files| && Loadable(files, n, compile)
    ensures name in Loaded(files, n, compile) <==> exists i :: 0 <= i < n && files[i].value.name == name
    ensures forall i :: 0 <= i < n && files[i].value.name == name ==>
              Loaded(files, n, compile)[name] == CompiledDefinition(files[i].value, compile)
  {
    hide ValidDefinition, CompiledDefinition;
    if n > 0 {
      LoadedIsExact(files, n - 1, compile, name);
      assert files[n - 1].value.name in Loaded(files, n, compile);
    }
  }

  /** Reads every definition file; a file is None where it cannot be decoded. */
  method LoadAll(files: seq<Option<Definition>>, compile: Compiler) returns (r: Option<map<Text, Definition>>)
    ensures r.Some? <==> Loadable(files, |files|, compile)
    ensures r.Some? ==> r.value == Loaded(files, |files|, compile)
  {
    hide ValidDefinition, CompiledDefinition;
    var defs: map<Text, Definition> := map[];
    for i := 0 to |files|
      invariant Loadable(files, i, compile)
      invariant defs == Loaded(files, i, compile)
    {
      if files[i].None? {
        return None;
      }
      var def := ValidateDefinition(files[i].value, compile);
      if def.None? {
        return None;
      }
      var name := files[i].value.name;
      LoadedIsExact(files, i, compile, name);
      if name in defs {
        return None;
      }
      defs := defs[name := def.value];
    }
    return Some(defs);
  }

  // ----- Values -----

  function MaxLength(input: Input): int { if input.maxLength > 0 then input.maxLength else DEFAULT_MAX_INPUT_LENGTH }

  /** A control character of the UTF-8 text: one byte below 0x20, 0x7f, or U+0080 to U+009F. */
  predicate HasControl(v: Text) {
    exists i :: 0 <= i < |v| && (
      || (v[i] as int) < 0x20
      || v[i] as int == 0x7f
      || (v[i] as int == 0xc2 && i + 1 < |v| && 0x80 <= v[i + 1] as int <= 0x9f))
  }

  /** Input.check. */
  predicate AcceptsValue(input: Input, v: Text) {
    && input.re.Some?
    && |v| <= MaxLength(input)
    && !HasControl(v)
    && (input.allowLeadingDash || v == [] || v[0] != '-')
    && input.re.value(v)
  }

  /** The declared input is given an accepted value, or may be left out and is. */
  predicate InputOk(op: Operation, inputs: map<Text, Text>, name: Text)
    requires name in op.inputs
  {
    if name in inputs then AcceptsValue(op.inputs[name], inputs[name]) else op.inputs[name].optional
  }

  predicate Accepted(op: Operation, inputs: map<Text, Text>) {
    inputs.Keys <= op.inputs.Keys && forall n :: n in op.inputs ==> InputOk(op, inputs, n)
  }

  /** What each placeholder stands for: the client's value, or nothing for one left out. */
  function Values(op: Operation, inputs: map<Text, Text>): map<Text, Text> {
    map n | n in op.inputs :: if n in inputs then inputs[n] else []
  }

  predicate FillableFrom(t: Text, names: set<Text>) {
    Split(t).Some? && forall n :: n in Holes(Split(t).value) ==> n in names
  }

  predicate Fillable(t: Text, op: Operation) { FillableFrom(t, op.inputs.Keys) }

  datatype ArgvResult =
    | Argv(argv: seq<Text>)
    | UnknownOperation
    | UnknownInput(name: Text)
    | InputRequired(name: Text)
    | InputRefused(name: Text)
    | BadTemplate

  ghost function Least(keys: set<Text>): (m: Text)
    requires keys != {}
    ensures IsLeast(m, keys)
  {
    LeastExists(keys);
    var m :| IsLeast(m, keys);
    m
  }

  ghost function Rendered(op: Operation, inputs: map<Text, Text>): seq<Text>
    requires forall i :: 0 <= i < |op.argv| ==> Fillable(op.argv[i], op)
  {
    seq(|op.argv|, i requires 0 <= i < |op.argv| => RenderedAt(op, inputs, op.argv[i]))
  }

  ghost function RenderedAt(op: Operation, inputs: map<Text, Text>, t: Text): Text
    requires Fillable(t, op)
  {
    Fill(Split(t).value, Values(op, inputs))
  }

  /** The vector, or the input refused: the first in sorted order, and unknown inputs
      before declared ones. */
  ghost function ArgvOf(d: Definition, opName: Text, inputs: map<Text, Text>): ArgvResult {
    if opName !in d.operations then UnknownOperation
    else
      var op := d.operations[opName];
      if inputs.Keys - op.inputs.Keys != {} then UnknownInput(Least(inputs.Keys - op.inputs.Keys))
      else if FailingInputs(op, inputs) != {} then
        var name := Least(FailingInputs(op, inputs));
        if name in inputs then InputRefused(name) else InputRequired(name)
      else if forall i :: 0 <= i < |op.argv| ==> Fillable(op.argv[i], op) then
        Argv([d.executable] + Rendered(op, inputs))
      else BadTemplate
  }

  /** A vector starts with the definition's executable. */
  lemma VectorStarts(d: Definition, opName: Text, inputs: map<Text, Text>)
    requires ArgvOf(d, opName, inputs).Argv?
    ensures |ArgvOf(d, opName, inputs).argv| >= 1 && ArgvOf(d, opName, inputs).argv[0] == d.executable
  {
    hide Least, Fillable, FailingInputs, Rendered;
  }

  lemma NoneFailing(op: Operation, inputs: map<Text, Text>)
    ensures FailingInputs(op, inputs) == {} <==> forall n :: n in op.inputs ==> InputOk(op, inputs, n)
  {
    hide AcceptsValue;
    if n :| n in op.inputs && !InputOk(op, inputs, n) {
      assert n in FailingInputs(op, inputs);
    }
  }

  lemma ArgvIsExact(d: Definition, opName: Text, inputs: map<Text, Text>)
    requires opName in d.operations
    ensures var op := d.operations[opName];
            var fillable := forall i :: 0 <= i < |op.argv| ==> Fillable(op.argv[i], op);
            var r := ArgvOf(d, opName, inputs);
            && (r.Argv? <==> Accepted(op, inputs) && fillable)
            && (r.BadTemplate? <==> Accepted(op, inputs) && !fillable)
            && !r.UnknownOperation?
            && (r.Argv? ==> r.argv == [d.executable] + Rendered(op, inputs))
  {
    hide AcceptsValue, IsLeast, Fillable, Rendered;
    var op := d.operations[opName];
    NoneFailing(op, inputs);
    if n :| n in inputs && n !in op.inputs {
      assert n in inputs.Keys - op.inputs.Keys;
    }
  }

  /** A value that may reach the consumer: within its bound, matching its pattern, free of
      control characters, and with a dash in front only where that is allowed. */
  ghost predicate IsHarmless(input: Input, v: Text) {
    && |v| <= (if input.maxLength > 0 then input.maxLength else 256)
    && input.re.Some? && input.re.value(v)
    && (forall i :: 0 <= i < |v| ==> 32 <= v[i] as int && v[i] as int != 127)
    && (forall i :: 0 <= i < |v| - 1 && v[i] as int == 194 ==> v[i + 1] as int < 128 || v[i + 1] as int > 159)
    && (v != [] && v[0] == '-' ==> input.allowLeadingDash)
  }

  /** Inputs are accepted exactly when each one given is declared and harmless, and each one
      left out is optional. */
  lemma AcceptedExactness(op: Operation, inputs: map<Text, Text>)
    ensures Accepted(op, inputs) <==>
              && (forall n :: n in inputs ==> n in op.inputs && IsHarmless(op.inputs[n], inputs[n]))
              && (forall n :: n in op.inputs && n !in inputs ==> op.inputs[n].optional)
  {
    forall n | n in op.inputs && n in inputs
      ensures AcceptsValue(op.inputs[n], inputs[n]) <==> IsHarmless(op.inputs[n], inputs[n])
    {
      HarmlessExactness(op.inputs[n], inputs[n]);
    }
    hide AcceptsValue, IsHarmless;
  }

  lemma HarmlessExactness(input: Input, v: Text)
    ensures AcceptsValue(input, v) <==> IsHarmless(input, v)
  {
  }

  /** So every value a vector is built from is declared and harmless. */
  lemma VectorIsHarmless(d: Definition, opName: Text, inputs: map<Text, Text>, n: Text)
    requires opName in d.operations && ArgvOf(d, opName, inputs).Argv? && n in inputs
    ensures n in d.operations[opName].inputs && IsHarmless(d.operations[opName].inputs[n], inputs[n])
  {
    hide ArgvOf, Accepted, IsHarmless;
    ArgvIsExact(d, opName, inputs);
    AcceptedExactness(d.operations[opName], inputs);
  }

  /** For a definition that was validated, a request gets a vector exactly when its
      operation is declared and its inputs are accepted: no template can fail it. The
      vector is the executable and one element for each template, every value verbatim. */
  lemma ValidatedArgv(d: Definition, compile: Compiler, opName: Text, inputs: map<Text, Text>)
    requires ValidDefinition(d, compile) && opName in d.operations
    ensures var op := Compiled(d.operations[opName], compile);
            var r := ArgvOf(CompiledDefinition(d, compile), opName, inputs);
            && (forall i :: 0 <= i < |op.argv| ==> Fillable(op.argv[i], op))
            && (r.Argv? <==> Accepted(op, inputs))
            && !r.BadTemplate? && !r.UnknownOperation?
            && (r.Argv? ==> r.argv == [d.executable] + Rendered(op, inputs))
  {
    hide Fillable, Accepted, Rendered, Compiled;
    var op := d.operations[opName];
    assert CompiledDefinition(d, compile).operations[opName] == Compiled(op, compile);
    ValidatedTemplatesFill(op, compile);
    ArgvIsExact(CompiledDefinition(d, compile), opName, inputs);
  }

  method BuildArgv(d: Definition, opName: Text, inputs: map<Text, Text>) returns (r: ArgvResult)
    ensures r == ArgvOf(d, opName, inputs)
    ensures forall x: array<Byte> :: x.Length > 0 ==> !fresh(x)
  {
    hide AcceptsValue, InputOk, IsLeast, Split, Holes, Fill;
    forall m, n, keys | IsLeast(m, keys) && IsLeast(n, keys) ensures m == n {
      LeastIsUnique(m, n, keys);
    }
    if opName !in d.operations {
      return UnknownOperation;
    }
    var op := d.operations[opName];
    var unknown := UndeclaredInput(op, inputs);
    if unknown.Some? {
      return UnknownInput(unknown.value);
    }
    var values, refused := CollectValues(op, inputs);
    if refused.Some? {
      return if refused.value in inputs then InputRefused(refused.value) else InputRequired(refused.value);
    }
    var rendered := Render(op.argv, values);
    if rendered.None? {
      return BadTemplate;
    }
    return Argv([d.executable] + rendered.value);
  }

  /** BuildArgv's first loop: an input the operation does not declare. */
  method UndeclaredInput(op: Operation, inputs: map<Text, Text>) returns (r: Option<Text>)
    ensures r.None? <==> inputs.Keys <= op.inputs.Keys
    ensures r.Some? ==> r.value in inputs.Keys - op.inputs.Keys && IsLeast(r.value, inputs.Keys - op.inputs.Keys)
    ensures forall x: array<Byte> :: x.Length > 0 ==> !fresh(x)
  {
    hide IsLeast, AtMost;
    var given := SortedKeys(inputs.Keys);
    SortedKeysAscend(inputs.Keys);
    for k := 0 to |given|
      invariant forall n :: n in given[..k] ==> n in op.inputs
    {
      assert given[k] in given;
      if given[k] !in op.inputs {
        FirstIsLeast(given, k, inputs.Keys - op.inputs.Keys);
        return Some(given[k]);
      }
    }
    assert given[..|given|] == given;
    return None;
  }

  /** BuildArgv's second loop: every declared input checked, in order. */
  method CollectValues(op: Operation, inputs: map<Text, Text>) returns (values: map<Text, Text>, refused: Option<Text>)
    ensures refused.None? <==> FailingInputs(op, inputs) == {}
    ensures refused.None? ==> values == Values(op, inputs)
    ensures refused.Some? ==>
              refused.value in FailingInputs(op, inputs) && IsLeast(refused.value, FailingInputs(op, inputs))
    ensures forall x: array<Byte> :: x.Length > 0 ==> !fresh(x)
  {
    hide *;
    values := map[];
    var declared := SortedKeys(op.inputs.Keys);
    for k := 0 to |declared|
      invariant values.Keys == set n | n in declared[..k]
      invariant forall n :: n in values ==> n in op.inputs && InputOk(op, inputs, n)
      invariant forall n :: n in values ==> values[n] == if n in inputs then inputs[n] else []
    {
      var n := declared[k];
      assert n in declared;
      assert declared[..k + 1] == declared[..k] + [n];
      if !InputOk(op, inputs, n) {
        FirstFailing(op, inputs, k);
        return values, Some(n);
      }
      values := values[n := if n in inputs then inputs[n] else []];
    }
    assert declared[..|declared|] == declared;
    AllCollected(op, inputs, values);
    refused := None;
  }

  lemma FirstFailing(op: Operation, inputs: map<Text, Text>, k: nat)
    requires k < |SortedKeys(op.inputs.Keys)|
    requires forall n :: n in SortedKeys(op.inputs.Keys)[..k] ==> n in op.inputs && InputOk(op, inputs, n)
    requires var n := SortedKeys(op.inputs.Keys)[k]; n in op.inputs && !InputOk(op, inputs, n)
    ensures var n := SortedKeys(op.inputs.Keys)[k];
            n in FailingInputs(op, inputs) && IsLeast(n, FailingInputs(op, inputs))
  {
    SortedKeysAscend(op.inputs.Keys);
    FirstIsLeast(SortedKeys(op.inputs.Keys), k, FailingInputs(op, inputs));
  }

  lemma AllCollected(op: Operation, inputs: map<Text, Text>, values: map<Text, Text>)
    requires values.Keys == op.inputs.Keys
    requires forall n :: n in values ==> values[n] == if n in inputs then inputs[n] else []
    requires forall n :: n in op.inputs ==> InputOk(op, inputs, n)
    ensures values == Values(op, inputs) && FailingInputs(op, inputs) == {}
  {
  }

  /** BuildArgv's last loop: one element for each template. */
  method Render(argv: seq<Text>, values: map<Text, Text>) returns (r: Option<seq<Text>>)
    ensures r.Some? <==> forall i :: 0 <= i < |argv| ==> FillableFrom(argv[i], values.Keys)
    ensures r.Some? ==> |r.value| == |argv|
    ensures r.Some? ==> forall i :: 0 <= i < |argv| ==> r.value[i] == Fill(Split(argv[i]).value, values)
    ensures forall x: array<Byte> :: x.Length > 0 ==> !fresh(x)
  {
    hide Split, Holes, Fill;
    var out: seq<Text> := [];
    for i := 0 to |argv|
      invariant |out| == i
      invariant forall x: array<Byte> :: x.Length > 0 ==> !fresh(x)
      invariant forall k :: 0 <= k < i ==> FillableFrom(argv[k], values.Keys)
      invariant forall k :: 0 <= k < i ==> out[k] == Fill(Split(argv[k]).value, values)
    {
      var rendered := Substitute(argv[i], values);
      if rendered.None? {
        return None;
      }
      out := out + [rendered.value];
    }
    return Some(out);
  }

  ghost function FailingInputs(op: Operation, inputs: map<Text, Text>): set<Text> {
    set n | n in op.inputs && !InputOk(op, inputs, n)
  }

  lemma LeastIsUnique(m: Text, n: Text, keys: set<Text>)
    requires IsLeast(m, keys) && IsLeast(n, keys)
    ensures m == n
  {
    AtMostAntisymmetric(m, n);
  }

  lemma FirstIsLeast(sorted: seq<Text>, k: nat, failing: set<Text>)
    requires Ascending(sorted) && k < |sorted| && sorted[k] in failing
    requires forall n :: n in failing ==> n in sorted && n !in sorted[..k]
    ensures IsLeast(sorted[k], failing)
  {
    AtMostTotal(sorted[k], sorted[k]);
    assert sorted == sorted[..k] + sorted[k..];
    forall n | n in failing ensures AtMost(sorted[k], n) {
      assert n in sorted[k..];
      var j :| 0 <= j < |sorted[k..]| && sorted[k..][j] == n;
      assert sorted[k + j] == n;
    }
  }

  /** For a validated operation the templates cannot be what refuses a request: every
      accepted set of inputs yields a vector. */
  lemma ValidatedTemplatesFill(op: Operation, compile: Compiler)
    requires ValidOperation(op, compile)
    ensures var compiled := Compiled(op, compile);
            forall i :: 0 <= i < |compiled.argv| ==> Fillable(compiled.argv[i], compiled)
    ensures forall n :: n in op.inputs ==> Compiled(op, compile).inputs[n].re.Some?
  {
  }

  /** Where a dash at the front of a filled template comes from: up to that point only
      empty values, and then the template's own dash or an input allowed to bring one. */
  ghost predicate DashIsIntended(pieces: seq<Piece>, op: Operation, inputs: map<Text, Text>)
    requires forall n :: n in Holes(pieces) ==> n in op.inputs
  {
    pieces != [] &&
    match pieces[0]
    case Lit(c) => c == '-'
    case Hole(name) =>
      if Values(op, inputs)[name] == [] then DashIsIntended(pieces[1..], op, inputs)
      else op.inputs[name].allowLeadingDash
  }

  /** No accepted value turns an argument into an option the definition did not intend. */
  lemma {:induction false} NoSmuggledOption(pieces: seq<Piece>, op: Operation, inputs: map<Text, Text>)
    requires Accepted(op, inputs) && forall n :: n in Holes(pieces) ==> n in op.inputs
    requires var filled := Fill(pieces, Values(op, inputs)); filled != [] && filled[0] == '-'
    ensures DashIsIntended(pieces, op, inputs)
  {
    if pieces[0].Hole? {
      var name := pieces[0].name;
      assert name in Holes(pieces);
      if Values(op, inputs)[name] == [] {
        NoSmuggledOption(pieces[1..], op, inputs);
      } else {
        assert InputOk(op, inputs, name);
      }
    }
  }
}
