/** The JavaScript string operations the plugin relies on, on `seq<char>`. */
module Strings {

  /** `f` occurs in `s` starting at index `i`. */
  predicate OccursAt(s: string, f: string, i: int)
  {
    0 <= i && i + |f| <= |s| && s[i..i + |f|] == f
  }

  /** `f` is a substring of `s`. */
  ghost predicate Contains(s: string, f: string)
  {
    exists i :: OccursAt(s, f, i)
  }

  /** The first occurrence of `f` at or after index `k`, or -1. */
  function IndexFrom(s: string, f: string, k: nat): (r: int)
    decreases |s| - k
    ensures r == -1 || (k <= r && OccursAt(s, f, r))
    ensures forall j :: k <= j && (r == -1 || j < r) ==> !OccursAt(s, f, j)
  {
    if k + |f| > |s| then -1
    else if s[k..k + |f|] == f then k
    else IndexFrom(s, f, k + 1)
  }

  /** `String.prototype.indexOf`: the first index at which `f` occurs in `s`, or -1. */
  function IndexOf(s: string, f: string): (r: int)
    ensures -1 <= r <= |s|
    ensures r >= 0 <==> Contains(s, f)
    ensures r >= 0 ==> OccursAt(s, f, r) && forall j :: 0 <= j < r ==> !OccursAt(s, f, j)
  {
    IndexFrom(s, f, 0)
  }

  /** `String.prototype.lastIndexOf` for a one-character needle: the last index of `c`, or -1. */
  function LastIndexOf(s: string, c: char): (r: int)
    ensures -1 <= r < |s|
    ensures r >= 0 ==> s[r] == c
    ensures forall j :: r < j < |s| ==> s[j] != c
  {
    if |s| == 0 then -1
    else if s[|s| - 1] == c then |s| - 1
    else LastIndexOf(s[..|s| - 1], c)
  }

  /** `s.substring(s.lastIndexOf(sep) + 1)`: what follows the last separator. */
  function Basename(s: string, sep: char): (r: string)
    ensures sep !in r
    ensures |r| <= |s| && s[|s| - |r|..] == r
    ensures |r| < |s| ==> s[|s| - |r| - 1] == sep
  {
    s[LastIndexOf(s, sep) + 1..]
  }

  /** The name after a separator is the basename when it holds no separator itself. */
  lemma BasenameAfter(a: string, sep: char, name: string)
    ensures sep !in name ==> Basename(a + [sep] + name, sep) == name
  {
    var s := a + [sep] + name;
    assert s[|a|] == sep;
    assert forall j :: |a| < j < |s| ==> s[j] == name[j - |a| - 1];
    assert s[|a| + 1..] == name;
  }

  /** `s.endsWith(suffix)`. */
  predicate EndsWith(s: string, suffix: string)
  {
    |suffix| <= |s| && s[|s| - |suffix|..] == suffix
  }

  /** `parts.join(sep)` for a one-character separator. */
  function Join(parts: seq<string>, sep: char): string
  {
    if |parts| == 0 then ""
    else if |parts| == 1 then parts[0]
    else parts[0] + [sep] + Join(parts[1..], sep)
  }

  /** `s.split(sep)` for a one-character separator: the pieces between the separators,
      empty pieces included, so that the empty string splits into one empty piece. */
  function Split(s: string, sep: char): (parts: seq<string>)
    decreases |s|
    ensures |parts| >= 1
    ensures forall i :: 0 <= i < |parts| ==> sep !in parts[i]
    ensures Join(parts, sep) == s
    ensures |parts| > 1 <==> sep in s
  {
    if s == [] then [""]
    else
      var rest := Split(s[1..], sep);
      assert s == [s[0]] + s[1..];
      if s[0] == sep then
        assert ([""] + rest)[1..] == rest;
        [""] + rest
      else
        var parts := [[s[0]] + rest[0]] + rest[1..];
        assert parts[1..] == rest[1..];
        assert forall j :: 1 <= j < |parts| ==> parts[j] == rest[j];
        parts
  }

  /** A string without the separator is a single piece. */
  lemma {:induction false} SplitNoSeparator(a: string, sep: char)
    requires sep !in a
    decreases |a|
    ensures Split(a, sep) == [a]
  {
    if a != [] {
      SplitNoSeparator(a[1..], sep);
      assert a == [a[0]] + a[1..];
    }
  }

  /** A separator-free head followed by the separator splits off as the first piece. */
  lemma {:induction false} SplitAtSeparator(a: string, sep: char, t: string)
    requires sep !in a
    decreases |a|
    ensures Split(a + [sep] + t, sep) == [a] + Split(t, sep)
  {
    var s := a + [sep] + t;
    if a == [] {
      assert s[1..] == t;
    } else {
      assert s[1..] == a[1..] + [sep] + t;
      SplitAtSeparator(a[1..], sep, t);
      assert [a[0]] + a[1..] == a;
    }
  }

  /** Splitting a join of separator-free pieces gives the pieces back. */
  lemma {:induction false} SplitJoin(parts: seq<string>, sep: char)
    requires |parts| >= 1
    requires forall i :: 0 <= i < |parts| ==> sep !in parts[i]
    decreases |parts|
    ensures Split(Join(parts, sep), sep) == parts
  {
    if |parts| == 1 {
      SplitNoSeparator(parts[0], sep);
    } else {
      SplitJoin(parts[1..], sep);
      SplitAtSeparator(parts[0], sep, Join(parts[1..], sep));
      assert [parts[0]] + parts[1..] == parts;
    }
  }
}
