/**
 * The parts of .NET's string handling that the record store relies on:
 * char.IsWhiteSpace, string.IsNullOrWhiteSpace, string.Trim and
 * string.Split(char). A string is a sequence of `char`, that is, of Unicode
 * scalar values.
 */
module Text {

  /** char.IsWhiteSpace: the Unicode separators and the ASCII/Latin-1 control spaces. */
  predicate IsWhiteSpace(c: char) {
    ('\U{9}' <= c <= '\U{D}') || c == ' ' || c == '\U{85}' || c == '\U{A0}' ||
    c == '\U{1680}' || ('\U{2000}' <= c <= '\U{200A}') || c == '\U{2028}' || c == '\U{2029}' ||
    c == '\U{202F}' || c == '\U{205F}' || c == '\U{3000}'
  }

  /** string.IsNullOrWhiteSpace for a non-null string: empty or nothing but white space. */
  predicate IsBlank(s: string) {
    forall i :: 0 <= i < |s| ==> IsWhiteSpace(s[i])
  }

  /** `s` without its leading characters that satisfy `p` (string.TrimStart). */
  function TrimStart(s: string, p: char -> bool): (r: string)
    ensures |r| <= |s|
    ensures r == [] || !p(r[0])
  {
    if s != [] && p(s[0]) then TrimStart(s[1..], p) else s
  }

  /** `s` without its trailing characters that satisfy `p` (string.TrimEnd). */
  function TrimEnd(s: string, p: char -> bool): (r: string)
    ensures |r| <= |s|
    ensures r == [] || (!p(r[|r| - 1]) && r[0] == s[0])
  {
    if s != [] && p(s[|s| - 1]) then TrimEnd(s[..|s| - 1], p) else s
  }

  /** TrimStart drops a prefix of characters satisfying `p`. */
  lemma {:induction false} TrimStartDrops(s: string, p: char -> bool)
    ensures TrimStart(s, p) == s[|s| - |TrimStart(s, p)|..]
    ensures forall i :: 0 <= i < |s| - |TrimStart(s, p)| ==> p(s[i])
  {
    if s != [] && p(s[0]) {
      TrimStartDrops(s[1..], p);
    }
  }

  /** TrimEnd drops a suffix of characters satisfying `p`. */
  lemma {:induction false} TrimEndDrops(s: string, p: char -> bool)
    ensures TrimEnd(s, p) == s[..|TrimEnd(s, p)|]
    ensures forall i :: |TrimEnd(s, p)| <= i < |s| ==> p(s[i])
  {
    if s != [] && p(s[|s| - 1]) {
      TrimEndDrops(s[..|s| - 1], p);
    }
  }

  /** `s` without the characters satisfying `p` at either end. */
  function Strip(s: string, p: char -> bool): (r: string)
    ensures r == [] || (!p(r[0]) && !p(r[|r| - 1]))
    ensures (s == [] || (!p(s[0]) && !p(s[|s| - 1]))) ==> r == s
  {
    TrimEnd(TrimStart(s, p), p)
  }

  /**
   * Strip removes only characters satisfying `p` and keeps nothing that was
   * not in `s`; it removes everything exactly when every character satisfies `p`.
   */
  lemma StripKeeps(s: string, p: char -> bool)
    ensures forall i :: 0 <= i < |s| ==> p(s[i]) || s[i] in Strip(s, p)
    ensures forall c :: c in Strip(s, p) ==> c in s
    ensures Strip(s, p) == [] <==> forall i :: 0 <= i < |s| ==> p(s[i])
  {
    var front := TrimStart(s, p);
    TrimStartDrops(s, p);
    TrimEndDrops(front, p);
    var r := Strip(s, p);
    var a := |s| - |front|;
    assert r == s[a..a + |r|];
    forall i | 0 <= i < |s| && !p(s[i])
      ensures s[i] in r
    {
      assert a <= i < a + |r|;
      assert s[i] == r[i - a];
    }
  }

  /** No white space at either end. */
  predicate IsTrimmed(s: string) {
    s == [] || (!IsWhiteSpace(s[0]) && !IsWhiteSpace(s[|s| - 1]))
  }

  /** string.Trim(): removes leading and trailing white space. */
  function Trim(s: string): (r: string)
    ensures IsTrimmed(r)
    ensures r == [] <==> IsBlank(s)
    ensures IsTrimmed(s) ==> r == s
  {
    StripKeeps(s, IsWhiteSpace);
    Strip(s, IsWhiteSpace)
  }

  /** `s[..a]` and `s[b..]` consist of characters satisfying `p`. */
  predicate EndsCut(s: string, a: int, b: int, p: char -> bool) {
    0 <= a <= b <= |s| &&
    (forall i :: 0 <= i < a ==> p(s[i])) &&
    (forall i :: b <= i < |s| ==> p(s[i]))
  }

  /**
   * Trim cuts white space off both ends and nothing else: the result is the
   * contiguous middle of `s`, with only white space before and after it.
   */
  lemma TrimCutsEnds(s: string)
    ensures exists a, b :: EndsCut(s, a, b, IsWhiteSpace) && Trim(s) == s[a..b]
  {
    var front := TrimStart(s, IsWhiteSpace);
    TrimStartDrops(s, IsWhiteSpace);
    TrimEndDrops(front, IsWhiteSpace);
    var r := Trim(s);
    var a := |s| - |front|;
    assert r == s[a..a + |r|];
    forall i | a + |r| <= i < |s|
      ensures IsWhiteSpace(s[i])
    {
      assert s[i] == front[i - a];
    }
    assert EndsCut(s, a, a + |r|, IsWhiteSpace);
  }

  /** The inverse of Split: the pieces with one separator between each two. */
  function Join(parts: seq<string>, sep: char): string
    requires |parts| >= 1
  {
    if |parts| == 1 then parts[0] else parts[0] + [sep] + Join(parts[1..], sep)
  }

  /** string.Split(sep): all pieces between separators, empty ones included. */
  function Split(s: string, sep: char): (parts: seq<string>)
    ensures |parts| >= 1
    ensures forall k :: 0 <= k < |parts| ==> sep !in parts[k]
    ensures Join(parts, sep) == s
  {
    if s == [] then
      [[]]
    else
      var rest := Split(s[1..], sep);
      if s[0] == sep then
        [[]] + rest
      else
        JoinConsHead(s[0], rest, sep);
        [[s[0]] + rest[0]] + rest[1..]
  }

  lemma JoinConsHead(c: char, parts: seq<string>, sep: char)
    requires |parts| >= 1
    ensures Join([[c] + parts[0]] + parts[1..], sep) == [c] + Join(parts, sep)
  {
    var p := [[c] + parts[0]] + parts[1..];
    if |parts| > 1 {
      assert p[1..] == parts[1..];
    }
  }

  /** Splitting a joined sequence of separator-free pieces gives the pieces back. */
  lemma {:induction false} SplitJoin(parts: seq<string>, sep: char)
    requires |parts| >= 1
    requires forall k :: 0 <= k < |parts| ==> sep !in parts[k]
    ensures Split(Join(parts, sep), sep) == parts
  {
    JoinInjective(Split(Join(parts, sep), sep), parts, sep);
  }

  lemma {:induction false} JoinInjective(p: seq<string>, q: seq<string>, sep: char)
    requires |p| >= 1 && |q| >= 1
    requires forall k :: 0 <= k < |p| ==> sep !in p[k]
    requires forall k :: 0 <= k < |q| ==> sep !in q[k]
    requires Join(p, sep) == Join(q, sep)
    ensures p == q
  {
    var s := Join(p, sep);
    JoinFirstSeparator(p, sep);
    JoinFirstSeparator(q, sep);
    if |p| > 1 && |q| > 1 && |p[0]| == |q[0]| {
      assert p[0] == s[..|p[0]|] == q[0];
      assert Join(p[1..], sep) == s[|p[0]| + 1..] == Join(q[1..], sep);
      JoinInjective(p[1..], q[1..], sep);
    } else if |p| > 1 || |q| > 1 {
      assert false;
    }
  }

  /** The first piece ends where the first separator of the joined string is. */
  lemma JoinFirstSeparator(p: seq<string>, sep: char)
    requires |p| >= 1
    requires sep !in p[0]
    ensures |p| == 1 ==> Join(p, sep) == p[0]
    ensures |p| > 1 ==> |p[0]| < |Join(p, sep)| && Join(p, sep)[|p[0]|] == sep
    ensures |p| > 1 ==> Join(p, sep)[..|p[0]|] == p[0]
  {
  }

  /** A string splits into two or more pieces exactly when it contains the separator. */
  lemma SplitFindsSeparator(s: string, sep: char)
    ensures |Split(s, sep)| >= 2 <==> sep in s
  {
    var parts := Split(s, sep);
    if |parts| >= 2 {
      assert s[|parts[0]|] == sep;
    }
  }
}
