/**
 * Joining and splitting text around one separator character, as
 * `Array.prototype.join` and `String.prototype.split` do, and the small
 * readers the statement parsers of the Sql module are built from.
 */
module Texts {
  import opened Results
  import opened Seqs

  /** `parts.join(sep)`: the parts with one separator between each two. */
  function Join(parts: seq<string>, sep: char): string {
    if |parts| == 0 then ""
    else if |parts| == 1 then parts[0]
    else parts[0] + [sep] + Join(parts[1..], sep)
  }

  /** `s.split(sep)`: the pieces between separators; never empty, `[""]` for empty text. */
  function Split(s: string, sep: char): (parts: seq<string>)
    ensures |parts| > 0
    decreases |s|
  {
    var i := IndexOf(s, sep);
    if i < 0 then [s] else [s[..i]] + Split(s[i + 1..], sep)
  }

  /** True when no part contains the separator. */
  predicate NoSeparator(parts: seq<string>, sep: char) {
    forall i :: 0 <= i < |parts| ==> sep !in parts[i]
  }

  /** The text up to the first c and the text after it, when there is a c. */
  function Upto(s: string, c: char): Option<(string, string)> {
    var i := IndexOf(s, c);
    if i < 0 then None else Some((s[..i], s[i + 1..]))
  }

  /** The position of the last c in s, or -1. */
  function LastIndexOf(s: string, c: char): (i: int)
    ensures -1 <= i < |s|
    ensures i >= 0 ==> s[i] == c && c !in s[i + 1..]
    ensures i < 0 <==> c !in s
  {
    if s == [] then -1
    else if s[|s| - 1] == c then |s| - 1
    else
      var j := LastIndexOf(s[..|s| - 1], c);
      assert s == s[..|s| - 1] + [s[|s| - 1]];
      assert j >= 0 ==> s[j + 1..] == s[..|s| - 1][j + 1..] + [s[|s| - 1]];
      j
  }

  /** The text before the last c and the text after it, when there is a c. */
  function UptoLast(s: string, c: char): Option<(string, string)> {
    var i := LastIndexOf(s, c);
    if i < 0 then None else Some((s[..i], s[i + 1..]))
  }

  /** The text after the expected prefix, when it is there. */
  function Expect(s: string, prefix: string): Option<string> {
    if StartsWith(s, prefix) then Some(s[|prefix|..]) else None
  }

  /** The text before the expected suffix, when it is there. */
  function DropSuffix(s: string, suffix: string): Option<string> {
    if EndsWith(s, suffix) then Some(s[..|s| - |suffix|]) else None
  }

  // ------------------------------------------------------------------ laws

  /** The first separator of `a + [c] + b` is the one after a, when a has none. */
  lemma UptoAppend(a: string, c: char, b: string)
    requires c !in a
    ensures Upto(a + [c] + b, c) == Some((a, b))
  {
    var s := a + [c] + b;
    assert s[|a|] == c;
    assert s[..|a|] == a;
    assert c !in s[..|a|];
    assert s[|a| + 1..] == b;
  }

  /** The last separator of `a + [c] + b` is the one before b, when b has none. */
  lemma UptoLastAppend(a: string, c: char, b: string)
    requires c !in b
    ensures UptoLast(a + [c] + b, c) == Some((a, b))
  {
    var s := a + [c] + b;
    var i := LastIndexOf(s, c);
    assert s[|a|] == c && s[|a| + 1..] == b;
    forall j | |a| < j < |s| ensures s[j] != c {
      assert s[j] == b[j - |a| - 1];
    }
    assert i >= |a| ==> i == |a|;
    assert s[..|a|] == a;
  }

  lemma ExpectAppend(prefix: string, rest: string)
    ensures Expect(prefix + rest, prefix) == Some(rest)
  {
    assert (prefix + rest)[..|prefix|] == prefix;
    assert (prefix + rest)[|prefix|..] == rest;
  }

  lemma DropSuffixAppend(s: string, suffix: string)
    ensures DropSuffix(s + suffix, suffix) == Some(s)
  {
    var t := s + suffix;
    assert t[|t| - |suffix|..] == suffix;
    assert t[..|t| - |suffix|] == s;
  }

  /** Splitting undoes joining, when no part holds the separator. */
  lemma {:induction false} SplitJoin(parts: seq<string>, sep: char)
    requires |parts| > 0 && NoSeparator(parts, sep)
    ensures Split(Join(parts, sep), sep) == parts
    decreases |parts|
  {
    if |parts| == 1 {
      assert sep !in parts[0];
    } else {
      NoSeparatorCons(parts, sep);
      SplitCons(parts[0], Join(parts[1..], sep), sep);
      SplitJoin(parts[1..], sep);
      assert parts == [parts[0]] + parts[1..];
    }
  }

  /** The first part and the rest of parts that hold no separator hold none. */
  lemma NoSeparatorCons(parts: seq<string>, sep: char)
    requires |parts| > 0 && NoSeparator(parts, sep)
    ensures sep !in parts[0] && NoSeparator(parts[1..], sep)
  {
    forall i | 0 <= i < |parts[1..]| ensures sep !in parts[1..][i] {
      assert parts[1..][i] == parts[i + 1];
    }
  }

  /** Splitting at a first separator gives the part before it, then the split of the rest. */
  lemma SplitCons(a: string, rest: string, sep: char)
    requires sep !in a
    ensures Split(a + [sep] + rest, sep) == [a] + Split(rest, sep)
  {
    UptoAppend(a, sep, rest);
    var s := a + [sep] + rest;
    assert IndexOf(s, sep) == |a|;
    assert s[..|a|] == a && s[|a| + 1..] == rest;
  }

  /** Joining a part before at least one more puts the separator after it. */
  lemma JoinCons(a: string, rest: seq<string>, sep: char)
    requires |rest| > 0
    ensures Join([a] + rest, sep) == a + [sep] + Join(rest, sep)
  {
    assert ([a] + rest)[1..] == rest;
  }

  /** Joining a last part that holds the separator reads like joining its two halves. */
  lemma {:induction false} JoinLastHalves(parts: seq<string>, a: string, b: string, sep: char)
    ensures Join(parts + [a + [sep] + b], sep) == Join(parts + [a, b], sep)
    decreases |parts|
  {
    if |parts| == 0 {
      assert [a, b] == [a] + [b];
      JoinCons(a, [b], sep);
    } else {
      JoinLastHalves(parts[1..], a, b, sep);
      assert parts + [a + [sep] + b] == [parts[0]] + (parts[1..] + [a + [sep] + b]);
      assert parts + [a, b] == [parts[0]] + (parts[1..] + [a, b]);
      JoinCons(parts[0], parts[1..] + [a + [sep] + b], sep);
      JoinCons(parts[0], parts[1..] + [a, b], sep);
    }
  }
}
