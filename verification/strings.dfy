/** The Python string operations the bot relies on: `str.strip()` and the
    stripping `float()` does, the substring test `p in s`, `str.replace(c, "")` and the search for the last
    occurrence of a character behind `str.rsplit(c, 1)`. */
module Strings {
  import opened Base

  /** The characters Python's `str.isspace()` accepts: the ASCII whitespace
      and separator controls, NEL, NBSP and the Unicode space separators.
      `str.strip()` with no argument strips these. */
  const Whitespace: set<char> :=
    {' ', '\t', '\n', '\r', '\U{0B}', '\U{0C}', '\U{1C}', '\U{1D}', '\U{1E}', '\U{1F}',
     '\U{85}', '\U{A0}', '\U{1680}', '\U{2000}', '\U{2001}', '\U{2002}', '\U{2003}',
     '\U{2004}', '\U{2005}', '\U{2006}', '\U{2007}', '\U{2008}', '\U{2009}', '\U{200A}',
     '\U{2028}', '\U{2029}', '\U{202F}', '\U{205F}', '\U{3000}'}

  /** The characters `float()` ignores around a number. It keeps every ASCII
      character as it is and skips only space, `\t`, `\n`, `\v`, `\f` and
      `\r`, while every non-ASCII whitespace character counts as a space: all
      of `Whitespace` except the separators U+001C to U+001F. */
  const FloatWhitespace: set<char> := Whitespace - {'\U{1C}', '\U{1D}', '\U{1E}', '\U{1F}'}

  /** Every character of `s` is in `chars`. */
  predicate AllIn(s: string, chars: set<char>) {
    forall i :: 0 <= i < |s| ==> s[i] in chars
  }

  /** No character of `s` is in `chars`. */
  predicate NoneIn(s: string, chars: set<char>) {
    forall i :: 0 <= i < |s| ==> s[i] !in chars
  }

  /** `s` starts with `prefix`. */
  predicate HasPrefix(s: string, prefix: string) {
    |prefix| <= |s| && s[..|prefix|] == prefix
  }

  /** `s` ends with `suffix`. */
  predicate EndsWith(s: string, suffix: string) {
    |suffix| <= |s| && s[|s| - |suffix|..] == suffix
  }

  /** Number of leading characters of `s` in `chars`: that prefix is all in
      `chars`, and the character after it, if any, is not. */
  function Indent(s: string, chars: set<char>): (n: nat)
    ensures n <= |s| && AllIn(s[..n], chars)
    ensures n == |s| || s[n] !in chars
  {
    if |s| > 0 && s[0] in chars then
      var n := 1 + Indent(s[1..], chars);
      assert s[..n] == [s[0]] + s[1..][..n - 1];
      n
    else 0
  }

  /** Drops trailing characters in `chars`: the result is a prefix of `s`,
      what was dropped is all in `chars`, and the result does not end with
      any of them. */
  function TrimEnd(s: string, chars: set<char>): (r: string)
    ensures |r| <= |s| && r == s[..|r|]
    ensures AllIn(s[|r|..], chars)
    ensures r == [] || r[|r| - 1] !in chars
  {
    if |s| > 0 && s[|s| - 1] in chars then
      var r := TrimEnd(s[..|s| - 1], chars);
      assert s[|r|..] == s[..|s| - 1][|r|..] + [s[|s| - 1]];
      r
    else s
  }

  /** Python's `s.strip(chars)`: `r` is the slice of `s` that starts after
      the leading characters in `chars`, the characters after it are all in
      `chars`, and `r` neither starts nor ends with one of them. */
  function StripChars(s: string, chars: set<char>): (r: string)
    ensures Indent(s, chars) + |r| <= |s|
    ensures r == s[Indent(s, chars)..Indent(s, chars) + |r|]
    ensures AllIn(s[Indent(s, chars) + |r|..], chars)
    ensures r == [] || (r[0] !in chars && r[|r| - 1] !in chars)
  {
    var i := Indent(s, chars);
    var r := TrimEnd(s[i..], chars);
    assert s[i + |r|..] == s[i..][|r|..];
    r
  }

  /** Python's `s.strip()`. */
  function Strip(s: string): string {
    StripChars(s, Whitespace)
  }

  /** A string that neither starts nor ends with a character in `chars` is
      its own strip. */
  lemma StripTrimmed(s: string, chars: set<char>)
    requires s == [] || (s[0] !in chars && s[|s| - 1] !in chars)
    ensures StripChars(s, chars) == s
  {
    IndentPadded([], s, chars);
    assert [] + s == s;
  }

  /** Characters in `chars` prefixed to a string that does not start with
      one are exactly its indent. */
  lemma {:induction false} IndentPadded(lead: string, s: string, chars: set<char>)
    requires AllIn(lead, chars)
    requires s == [] || s[0] !in chars
    ensures Indent(lead + s, chars) == |lead|
  {
    if |lead| > 0 {
      assert (lead + s)[1..] == lead[1..] + s;
      IndentPadded(lead[1..], s, chars);
    } else {
      assert lead + s == s;
    }
  }

  /** Padding a string that neither starts nor ends with a character in
      `chars` with such characters on both sides does not change what
      stripping them returns. */
  lemma StripPadded(lead: string, s: string, trail: string, chars: set<char>)
    requires AllIn(lead, chars) && AllIn(trail, chars)
    requires s != [] && s[0] !in chars && s[|s| - 1] !in chars
    ensures StripChars(lead + s + trail, chars) == s
  {
    var x := lead + s + trail;
    assert x == lead + (s + trail);
    IndentPadded(lead, s + trail, chars);
    assert x[|lead|..|lead| + |s|] == s;
  }

  /** Pattern `p` occurs in `s` starting at index `i`. */
  ghost predicate OccursAt(s: string, p: string, i: int) {
    0 <= i && i + |p| <= |s| && s[i..i + |p|] == p
  }

  /** Python's substring test `p in s`. */
  function Contains(s: string, p: string): (b: bool)
    ensures b <==> exists i :: OccursAt(s, p, i)
  {
    if |p| <= |s| && s[..|p|] == p then
      assert OccursAt(s, p, 0);
      true
    else if |s| == 0 then
      assert forall i :: !OccursAt(s, p, i);
      false
    else
      var b := Contains(s[1..], p);
      assert forall i :: OccursAt(s[1..], p, i) ==> OccursAt(s, p, i + 1) by {
        forall i | OccursAt(s[1..], p, i) ensures OccursAt(s, p, i + 1) {
          assert s[1..][i..i + |p|] == s[i + 1..i + 1 + |p|];
        }
      }
      assert forall i :: OccursAt(s, p, i) ==> i == 0 || OccursAt(s[1..], p, i - 1) by {
        forall i | OccursAt(s, p, i) && i != 0 ensures OccursAt(s[1..], p, i - 1) {
          assert s[1..][i - 1..i - 1 + |p|] == s[i..i + |p|];
        }
      }
      b
  }

  /** An occurrence in `s` of a pattern with no character in `chars` lies
      wholly inside `s.strip(chars)`. */
  lemma OccurrenceInsideStrip(s: string, p: string, k: int, chars: set<char>)
    requires p != [] && NoneIn(p, chars) && OccursAt(s, p, k)
    ensures Indent(s, chars) <= k && k + |p| <= Indent(s, chars) + |StripChars(s, chars)|
  {
    var i := Indent(s, chars);
    var e := i + |StripChars(s, chars)|;
    assert forall j :: 0 <= j < i ==> s[j] in chars by {
      forall j | 0 <= j < i ensures s[j] in chars { assert s[..i][j] == s[j]; }
    }
    assert forall j :: e <= j < |s| ==> s[j] in chars by {
      forall j | e <= j < |s| ensures s[j] in chars { assert s[e..][j - e] == s[j]; }
    }
    assert s[k] !in chars by { assert s[k] == s[k..k + |p|][0] == p[0]; }
    var m := k + |p| - 1;
    assert s[m] !in chars by { assert s[m] == s[k..k + |p|][|p| - 1] == p[|p| - 1]; }
  }

  /** An occurrence in `s.strip(chars)` is an occurrence in `s`. */
  lemma ContainsFromStripped(s: string, p: string, chars: set<char>)
    requires Contains(StripChars(s, chars), p)
    ensures Contains(s, p)
  {
    var r := StripChars(s, chars);
    var k :| OccursAt(r, p, k);
    OccursInSlice(s, Indent(s, chars), Indent(s, chars) + |r|, p, k);
  }

  /** An occurrence in `s` of a pattern with no character in `chars` is an
      occurrence in `s.strip(chars)`. */
  lemma ContainsInStripped(s: string, p: string, chars: set<char>)
    requires p != [] && NoneIn(p, chars) && Contains(s, p)
    ensures Contains(StripChars(s, chars), p)
  {
    var i := Indent(s, chars);
    var e := i + |StripChars(s, chars)|;
    var k :| OccursAt(s, p, k);
    OccurrenceInsideStrip(s, p, k, chars);
    OccursInWindow(s, i, e, p, k);
    assert StripChars(s, chars) == s[i..e];
  }

  /** A non-empty pattern with no character in `chars` occurs in `s` exactly
      when it occurs in `s.strip(chars)`: stripping never changes the outcome
      of a substring test for such a pattern. */
  lemma ContainsStripped(s: string, p: string, chars: set<char>)
    requires p != [] && NoneIn(p, chars)
    ensures Contains(StripChars(s, chars), p) <==> Contains(s, p)
  {
    if Contains(StripChars(s, chars), p) {
      ContainsFromStripped(s, p, chars);
    }
    if Contains(s, p) {
      ContainsInStripped(s, p, chars);
    }
  }

  /** A slice of a slice is a slice of the original. */
  lemma SliceOfSlice(s: string, a: int, b: int, c: int, d: int)
    requires 0 <= a <= b <= |s| && 0 <= c <= d <= b - a
    ensures s[a..b][c..d] == s[a + c..a + d]
  {
    assert forall j :: 0 <= j < d - c ==> s[a..b][c..d][j] == s[a + c + j];
  }

  /** An occurrence in a slice is an occurrence in the whole string. */
  lemma OccursInSlice(s: string, a: int, b: int, p: string, k: int)
    requires 0 <= a <= b <= |s| && OccursAt(s[a..b], p, k)
    ensures OccursAt(s, p, a + k)
  {
    SliceOfSlice(s, a, b, k, k + |p|);
  }

  /** An occurrence lying inside a window of `s` is an occurrence in the
      window. */
  lemma OccursInWindow(s: string, a: int, b: int, p: string, k: int)
    requires 0 <= a <= k && k + |p| <= b <= |s| && OccursAt(s, p, k)
    ensures OccursAt(s[a..b], p, k - a)
  {
    SliceOfSlice(s, a, b, k - a, k - a + |p|);
  }

  /** Python's `s.replace(c, "")`: no `c` is left, and nothing is added. */
  function RemoveChar(s: string, c: char): (r: string)
    ensures c !in r && |r| <= |s|
  {
    if |s| == 0 then []
    else if s[0] == c then RemoveChar(s[1..], c)
    else [s[0]] + RemoveChar(s[1..], c)
  }

  /** Removal drops exactly the occurrences of `c`: every other character
      keeps its count, and the length shrinks by the count of `c`. */
  lemma {:induction false} RemoveCharCounts(s: string, c: char)
    ensures |RemoveChar(s, c)| == |s| - multiset(s)[c]
    ensures forall x :: x != c ==> multiset(RemoveChar(s, c))[x] == multiset(s)[x]
  {
    if |s| > 0 {
      assert s == [s[0]] + s[1..];
      assert multiset(s) == multiset{s[0]} + multiset(s[1..]);
      RemoveCharCounts(s[1..], c);
    }
  }

  /** Removal keeps the order of what is left: it distributes over `+`. */
  lemma {:induction false} RemoveCharConcat(a: string, b: string, c: char)
    ensures RemoveChar(a + b, c) == RemoveChar(a, c) + RemoveChar(b, c)
  {
    if |a| > 0 {
      assert (a + b)[1..] == a[1..] + b;
      RemoveCharConcat(a[1..], b, c);
    } else {
      assert a + b == b;
    }
  }

  /** A string without `c` is left untouched by removing `c`. */
  lemma {:induction false} RemoveCharAbsent(s: string, c: char)
    requires c !in s
    ensures RemoveChar(s, c) == s
  {
    if |s| > 0 {
      assert s == [s[0]] + s[1..];
      RemoveCharAbsent(s[1..], c);
    }
  }

  /** Index of the last occurrence of `c` in `s`, if any. */
  function LastIndexOf(s: string, c: char): (r: Option<nat>)
    ensures r.None? <==> c !in s
    ensures r.Some? ==> r.value < |s| && s[r.value] == c && c !in s[r.value + 1..]
  {
    if |s| == 0 then None
    else if s[|s| - 1] == c then Some(|s| - 1)
    else
      var r := LastIndexOf(s[..|s| - 1], c);
      assert s == s[..|s| - 1] + [s[|s| - 1]];
      if r.Some? then
        assert s[r.value + 1..] == s[..|s| - 1][r.value + 1..] + [s[|s| - 1]];
        r
      else r
  }

  /** The last occurrence is unique: any position holding `c` with no `c`
      after it is the one `LastIndexOf` finds. */
  lemma LastIndexOfUnique(s: string, c: char, k: nat)
    requires k < |s| && s[k] == c && c !in s[k + 1..]
    ensures LastIndexOf(s, c) == Some(k)
  {
  }
}
