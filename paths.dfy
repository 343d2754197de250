/**
 * Strings and file paths as the transform task sees them: prefix and suffix tests on
 * entry names, paths as lists of components, and the conversion between an entry name
 * ("a/b/C.class") and the path it denotes.
 */
module Paths {

  /** A file-system path, as the list of its components below some root. */
  type Path = seq<string>

  predicate StartsWith(s: string, prefix: string) {
    |prefix| <= |s| && s[..|prefix|] == prefix
  }

  predicate EndsWith(s: string, suffix: string) {
    |suffix| <= |s| && s[|s| - |suffix|..] == suffix
  }

  /** A string ends in whatever was appended to it last. */
  lemma EndsWithAppended(s: string, suffix: string)
    ensures EndsWith(s + suffix, suffix)
  {
    assert (s + suffix)[|s|..] == suffix;
  }

  /** A strict suffix test is transitive: a name ending in "R$id.class" ends in ".class". */
  lemma EndsWithTransitive(s: string, a: string, b: string)
    requires EndsWith(s, a) && EndsWith(a, b)
    ensures EndsWith(s, b)
  {
    assert s[|s| - |b|..] == s[|s| - |a|..][|a| - |b|..];
  }

  /** `a` names a directory that lies strictly above `b`. */
  predicate StrictPrefix(a: Path, b: Path) {
    |a| < |b| && b[..|a|] == a
  }

  /** The last component of a path, as java.io.File.getName gives it. */
  function Name(p: Path): string {
    if p == [] then "" else p[|p| - 1]
  }

  /** Index of the first occurrence of `c` in `s`, or |s| when there is none. */
  function IndexOf(s: string, c: char): (i: nat)
    ensures i <= |s|
    ensures i < |s| ==> s[i] == c
    ensures forall j :: 0 <= j < i ==> s[j] != c
  {
    if s == [] then 0 else if s[0] == c then 0 else 1 + IndexOf(s[1..], c)
  }

  /** Splits `s` at every `sep`; the result always has at least one component. */
  function Split(s: string, sep: char): (r: Path)
    ensures |r| >= 1
    ensures forall k :: 0 <= k < |r| ==> sep !in r[k]
    decreases |s|
  {
    var i := IndexOf(s, sep);
    if i == |s| then [s] else [s[..i]] + Split(s[i + 1..], sep)
  }

  /** Joins the components of `p`, putting `sep` between neighbours. */
  function Join(p: Path, sep: char): string
    decreases |p|
  {
    if p == [] then "" else if |p| == 1 then p[0] else p[0] + [sep] + Join(p[1..], sep)
  }

  /** Joining what was split gives back the original string, so Split is injective. */
  lemma {:induction false} JoinSplit(s: string, sep: char)
    ensures Join(Split(s, sep), sep) == s
    decreases |s|
  {
    var i := IndexOf(s, sep);
    if i < |s| {
      var rest := Split(s[i + 1..], sep);
      JoinSplit(s[i + 1..], sep);
      assert Split(s, sep) == [s[..i]] + rest;
      assert ([s[..i]] + rest)[1..] == rest;
      assert s == s[..i] + [sep] + s[i + 1..];
    }
  }

  lemma SplitInjective(a: string, b: string, sep: char)
    requires Split(a, sep) == Split(b, sep)
    ensures a == b
  {
    JoinSplit(a, sep);
    JoinSplit(b, sep);
  }

  /** Splitting a join of separator-free components gives back the components. */
  lemma {:induction false} SplitJoin(p: Path, sep: char)
    requires p != []
    requires forall k :: 0 <= k < |p| ==> sep !in p[k]
    ensures Split(Join(p, sep), sep) == p
    decreases |p|
  {
    var s := Join(p, sep);
    var i := IndexOf(s, sep);
    if |p| == 1 {
      assert s == p[0];
    } else {
      var rest := Join(p[1..], sep);
      assert s == p[0] + [sep] + rest;
      assert s[|p[0]|] == sep;
      assert i == |p[0]|;
      assert s[..i] == p[0];
      assert s[i + 1..] == rest;
      SplitJoin(p[1..], sep);
      assert p == [p[0]] + p[1..];
    }
  }

  /** Every character of a join is a separator or a character of some component. */
  lemma {:induction false} JoinChars(p: Path, sep: char, c: char)
    requires c in Join(p, sep)
    ensures c == sep || exists k :: 0 <= k < |p| && c in p[k]
    decreases |p|
  {
    if |p| == 1 {
      assert c in p[0];
    } else if |p| > 1 {
      var rest := Join(p[1..], sep);
      assert Join(p, sep) == p[0] + [sep] + rest;
      if c in p[0] {
      } else if c != sep {
        assert c in rest;
        JoinChars(p[1..], sep, c);
        var k :| 0 <= k < |p[1..]| && c in p[1..][k];
        assert c in p[k + 1];
      }
    }
  }

  /** `s` with every `from` replaced by `to` (Kotlin's String.replace(Char, Char)). */
  function Replace(s: string, from: char, to: char): (r: string)
    ensures |r| == |s|
    ensures forall k :: 0 <= k < |s| ==> r[k] == (if s[k] == from then to else s[k])
    ensures from != to ==> from !in r
    ensures forall c :: c in r ==> c == to || c in s
  {
    seq(|s|, k requires 0 <= k < |s| => if s[k] == from then to else s[k])
  }

  lemma ReplaceAbsent(s: string, from: char, to: char)
    requires from !in s
    ensures Replace(s, from, to) == s
  {
    var r := Replace(s, from, to);
    forall k | 0 <= k < |s| ensures r[k] == s[k] {
      assert s[k] != from;
    }
  }
}
