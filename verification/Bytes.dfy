/** Byte strings, as the Go code indexes them: a Text is one Go string, one element per byte. */
module Bytes {
  type Byte = c: char | c as int < 256 witness 'a'

  type Text = seq<Byte>

  datatype Option<+T> = None | Some(value: T)

  /** The first index of c, or -1. */
  function IndexByte(s: Text, c: Byte): (i: int)
    ensures -1 <= i < |s|
    ensures i == -1 <==> c !in s
    ensures i >= 0 ==> s[i] == c && c !in s[..i]
  {
    if s == [] then -1
    else if s[0] == c then 0
    else
      var i := IndexByte(s[1..], c);
      if i == -1 then -1 else i + 1
  }

  /** Splits at the first sep. */
  function Cut(s: Text, sep: Byte): (r: Option<(Text, Text)>)
    ensures r.None? <==> sep !in s
    ensures r.Some? ==> s == r.value.0 + [sep] + r.value.1 && sep !in r.value.0
  {
    if s == [] then None
    else if s[0] == sep then Some(([], s[1..]))
    else
      match Cut(s[1..], sep)
      case None => None
      case Some((before, after)) => Some(([s[0]] + before, after))
  }

  /** The cut is at the first c, so any such division is the one Cut returns. */
  lemma CutAtFirst(before: Text, c: Byte, after: Text)
    requires c !in before
    ensures Cut(before + [c] + after, c) == Some((before, after))
  {
    hide Cut;
    var s := before + [c] + after;
    assert s[|before|] == c;
    var (x, y) := Cut(s, c).value;
    assert s[|x|] == c;
    assert forall k :: 0 <= k < |before| ==> s[k] == before[k] && before[k] != c;
    assert forall k :: 0 <= k < |x| ==> s[k] == x[k] && x[k] != c;
    assert before == s[..|before|] == x && after == s[|before| + 1..] == y;
  }

  function JoinOn(parts: seq<Text>, sep: Byte): Text
    requires parts != []
  {
    if |parts| == 1 then parts[0] else parts[0] + [sep] + JoinOn(parts[1..], sep)
  }

  function SplitOn(s: Text, sep: Byte): (parts: seq<Text>)
    ensures parts != []
    decreases |s|
  {
    match Cut(s, sep)
    case None => [s]
    case Some((part, rest)) =>
      assert |s| == |part| + 1 + |rest|;
      [part] + SplitOn(rest, sep)
  }

  lemma {:induction false} SplitAfterJoinOn(parts: seq<Text>, sep: Byte)
    requires parts != [] && forall k :: 0 <= k < |parts| ==> sep !in parts[k]
    ensures SplitOn(JoinOn(parts, sep), sep) == parts
  {
    if |parts| > 1 {
      SplitAfterJoinOn(parts[1..], sep);
      CutAtFirst(parts[0], sep, JoinOn(parts[1..], sep));
      assert parts == [parts[0]] + parts[1..];
    }
  }

  lemma {:induction false} SplitPartsAreFree(s: Text, sep: Byte)
    ensures forall k :: 0 <= k < |SplitOn(s, sep)| ==> sep !in SplitOn(s, sep)[k]
    ensures forall k, c :: 0 <= k < |SplitOn(s, sep)| && c in SplitOn(s, sep)[k] ==> c in s
    decreases |s|
  {
    match Cut(s, sep) {
      case None =>
      case Some((part, rest)) =>
        assert |s| == |part| + 1 + |rest|;
        SplitPartsAreFree(rest, sep);
        assert SplitOn(s, sep) == [part] + SplitOn(rest, sep);
    }
  }

  lemma {:induction false} JoinAfterSplitOn(s: Text, sep: Byte)
    ensures JoinOn(SplitOn(s, sep), sep) == s
    decreases |s|
  {
    match Cut(s, sep) {
      case None =>
      case Some((part, rest)) =>
        assert |s| == |part| + 1 + |rest|;
        JoinAfterSplitOn(rest, sep);
        assert ([part] + SplitOn(rest, sep))[1..] == SplitOn(rest, sep);
    }
  }

  lemma Regroup<T>(x: seq<T>, y: seq<T>, z: seq<T>)
    ensures x + y + z == x + (y + z)
  {
  }

  /** The byte order behind Go's string comparison, extended to texts. */
  predicate AtMost(a: Text, b: Text) {
    a == [] || (b != [] && (a[0] < b[0] || (a[0] == b[0] && AtMost(a[1..], b[1..]))))
  }

  lemma {:induction false} AtMostTotal(a: Text, b: Text)
    ensures AtMost(a, b) || AtMost(b, a)
  {
    if a != [] && b != [] && a[0] == b[0] {
      AtMostTotal(a[1..], b[1..]);
    }
  }

  lemma {:induction false} AtMostAntisymmetric(a: Text, b: Text)
    requires AtMost(a, b) && AtMost(b, a)
    ensures a == b
  {
    if a != [] {
      AtMostAntisymmetric(a[1..], b[1..]);
      assert a == [a[0]] + a[1..] && b == [b[0]] + b[1..];
    }
  }

  lemma {:induction false} AtMostTransitive(a: Text, b: Text, c: Text)
    requires AtMost(a, b) && AtMost(b, c)
    ensures AtMost(a, c)
  {
    if a != [] && a[0] == b[0] && b[0] == c[0] {
      AtMostTransitive(a[1..], b[1..], c[1..]);
    }
  }

  predicate IsLeast(m: Text, keys: set<Text>) {
    m in keys && forall k :: k in keys ==> AtMost(m, k)
  }

  lemma {:induction false} LeastExists(keys: set<Text>)
    requires keys != {}
    ensures exists m :: IsLeast(m, keys)
    decreases |keys|
  {
    var x :| x in keys;
    var rest := keys - {x};
    if rest == {} {
      assert keys == {x};
      AtMostTotal(x, x);
      assert IsLeast(x, keys);
    } else {
      LeastExists(rest);
      var m :| IsLeast(m, rest);
      AtMostTotal(x, m);
      var least := if AtMost(x, m) then x else m;
      forall k | k in keys ensures AtMost(least, k) {
        AtMostTotal(x, x);
        if k != x && least == x {
          AtMostTransitive(x, m, k);
        }
      }
      assert IsLeast(least, keys);
    }
  }

  /** A set of keys in the order sort.Strings puts them. */
  function SortedKeys(keys: set<Text>): (sorted: seq<Text>)
    ensures forall k :: k in sorted <==> k in keys
    ensures |sorted| == |keys|
    decreases |keys|
  {
    if keys == {} then []
    else
      LeastExists(keys);
      assert forall m, n :: IsLeast(m, keys) && IsLeast(n, keys) ==> m == n by {
        forall m, n | IsLeast(m, keys) && IsLeast(n, keys) ensures m == n {
          AtMostAntisymmetric(m, n);
        }
      }
      var m :| IsLeast(m, keys);
      [m] + SortedKeys(keys - {m})
  }

  lemma SortedKeysStep(keys: set<Text>)
    requires keys != {}
    ensures var sorted := SortedKeys(keys);
            IsLeast(sorted[0], keys) && sorted == [sorted[0]] + SortedKeys(keys - {sorted[0]})
  {
  }

  ghost predicate Ascending(s: seq<Text>) {
    forall i, j :: 0 <= i < j < |s| ==> AtMost(s[i], s[j]) && s[i] != s[j]
  }

  lemma AscendingStep(first: Text, rest: seq<Text>)
    requires Ascending(rest) && forall k :: k in rest ==> AtMost(first, k) && k != first
    ensures Ascending([first] + rest)
  {
  }

  /** Each key once, in order. */
  lemma {:induction false} SortedKeysAscend(keys: set<Text>)
    ensures Ascending(SortedKeys(keys))
    decreases |keys|
  {
    if keys != {} {
      SortedKeysStep(keys);
      var first := SortedKeys(keys)[0];
      SortedKeysAscend(keys - {first});
      AscendingStep(first, SortedKeys(keys - {first}));
    }
  }
}
