/**
  The parts of Python's `str` that the extractor relies on: `split` on a
  one-character separator, `splitlines`, the `\s` character class and the
  case-insensitive comparison of the regular expressions' literal words.
 */
module Text {

  /** Number of occurrences of `c` in `s`. */
  function Count(s: string, c: char): nat
  {
    if s == [] then 0 else (if s[0] == c then 1 else 0) + Count(s[1..], c)
  }

  lemma {:induction false} CountZero(s: string, c: char)
    ensures Count(s, c) == 0 <==> c !in s
  {
    if s != [] {
      CountZero(s[1..], c);
      assert s == [s[0]] + s[1..];
    }
  }

  lemma {:induction false} CountConcat(a: string, b: string, c: char)
    ensures Count(a + b, c) == Count(a, c) + Count(b, c)
  {
    if a != [] {
      assert (a + b)[0] == a[0];
      assert (a + b)[1..] == a[1..] + b;
      CountConcat(a[1..], b, c);
      assert Count(a + b, c) == (if a[0] == c then 1 else 0) + Count(a[1..] + b, c);
    } else {
      assert a + b == b;
    }
  }

  /** The pieces joined back with the separator between them. */
  function Join(parts: seq<string>, sep: char): string
  {
    if |parts| == 0 then []
    else if |parts| == 1 then parts[0]
    else parts[0] + [sep] + Join(parts[1..], sep)
  }

  /**
    Python's `s.split(sep)` for a one-character separator: the maximal pieces
    between separators, empty pieces included, so that there is always one
    more piece than there are separators.
   */
  function Split(s: string, sep: char): (parts: seq<string>)
    ensures |parts| == Count(s, sep) + 1
    ensures forall i :: 0 <= i < |parts| ==> sep !in parts[i]
    ensures Join(parts, sep) == s
    decreases |s|
  {
    if s == [] then [[]]
    else
      var rest := Split(s[1..], sep);
      if s[0] == sep then
        assert ([[]] + rest)[1..] == rest;
        [[]] + rest
      else
        var parts := [[s[0]] + rest[0]] + rest[1..];
        assert parts[1..] == rest[1..];
        assert |rest| > 1 ==> Join(rest, sep) == rest[0] + [sep] + Join(rest[1..], sep);
        assert Join(parts, sep) == [s[0]] + Join(rest, sep);
        assert s == [s[0]] + s[1..];
        parts
  }

  /**
    A string with exactly one separator splits into the text before it and the
    text after it, and those two are determined by the string.
   */
  lemma SeparatorUnique(a: string, b: string, x: string, y: string, c: char)
    requires c !in a && c !in x
    requires a + [c] + b == x + [c] + y
    ensures a == x && b == y
  {
    var t := a + [c] + b;
    assert t[|a|] == c && t[|x|] == c;
    assert forall k :: 0 <= k < |a| ==> t[k] == a[k];
    assert forall k :: 0 <= k < |x| ==> t[k] == x[k];
    assert |a| == |x|;
    assert a == t[..|a|] && x == t[..|x|];
    assert b == t[|a| + 1..] && y == t[|x| + 1..];
  }

  /** Splitting `u + "@" + h` when neither side holds the separator. */
  lemma SplitAround(u: string, h: string, c: char)
    requires c !in u && c !in h
    ensures Split(u + [c] + h, c) == [u, h]
  {
    var s := u + [c] + h;
    var parts := Split(s, c);
    assert s == u + ([c] + h);
    CountConcat(u, [c] + h, c);
    CountConcat([c], h, c);
    assert Count([c], c) == 1 by { assert [c][1..] == []; }
    CountZero(u, c);
    CountZero(h, c);
    assert |parts| == 2;
    assert Join(parts, c) == parts[0] + [c] + parts[1];
    SeparatorUnique(parts[0], parts[1], u, h, c);
  }

  /** ASCII upper-case letters and the letter `Ö` map to lower case; nothing else changes. */
  function LowerChar(c: char): char
  {
    if 'A' <= c <= 'Z' then (c as int + 32) as char
    else if c == 'Ö' then 'ö'
    else c
  }

  function Lower(s: string): string
  {
    seq(|s|, i requires 0 <= i < |s| => LowerChar(s[i]))
  }

  /** A string with no upper-case letter is its own lower-case form. */
  lemma LowerOfLowercase(s: string)
    requires forall i :: 0 <= i < |s| ==> !('A' <= s[i] <= 'Z') && s[i] != 'Ö'
    ensures Lower(s) == s
  {
  }

  /** The word `w` occurs in `s` at position `p`, ignoring case. */
  predicate WordAt(s: string, p: nat, w: string)
  {
    p + |w| <= |s| && Lower(s[p..p + |w|]) == w
  }

  /** Python's `\s` (and `str.isspace`): the Unicode whitespace characters. */
  predicate IsSpace(c: char)
  {
    ('\t' <= c <= '\r') || ('\U{1C}' <= c <= ' ') || c == '\U{85}' || c == '\U{A0}'
    || c == '\U{1680}' || ('\U{2000}' <= c <= '\U{200A}') || c == '\U{2028}'
    || c == '\U{2029}' || c == '\U{202F}' || c == '\U{205F}' || c == '\U{3000}'
  }

  /** The characters at which Python's `str.splitlines` ends a line. */
  predicate IsLineBoundary(c: char)
  {
    ('\n' <= c <= '\r') || ('\U{1C}' <= c <= '\U{1E}') || c == '\U{85}'
    || c == '\U{2028}' || c == '\U{2029}'
  }

  predicate NoLineBoundary(line: string)
  {
    forall j :: 0 <= j < |line| ==> !IsLineBoundary(line[j])
  }

  /** The position of the first line boundary of `s`, or `|s|` when there is none. */
  function LineEnd(s: string): (e: nat)
    ensures e <= |s|
    ensures NoLineBoundary(s[..e])
    ensures e < |s| ==> IsLineBoundary(s[e])
  {
    if s == [] || IsLineBoundary(s[0]) then 0
    else
      var e := 1 + LineEnd(s[1..]);
      assert s[..e] == [s[0]] + s[1..][..e - 1];
      e
  }

  /**
    Python's `s.splitlines()`: the text between line boundaries, where `\r\n`
    is one boundary and a boundary at the very end opens no further line.
   */
  function SplitLines(s: string): (lines: seq<string>)
    ensures forall i :: 0 <= i < |lines| ==> NoLineBoundary(lines[i])
    ensures s == [] <==> lines == []
    decreases |s|
  {
    if s == [] then []
    else
      var e := LineEnd(s);
      var next := if e == |s| then e
                  else if s[e] == '\r' && e + 1 < |s| && s[e + 1] == '\n' then e + 2
                  else e + 1;
      [s[..e]] + SplitLines(s[next..])
  }

  /** The first line of a text ends at the first boundary, even when more text follows it. */
  lemma LineEndAt(a: string, c: char, b: string)
    requires NoLineBoundary(a) && IsLineBoundary(c)
    ensures LineEnd(a + [c] + b) == |a|
  {
    var s := a + [c] + b;
    assert forall k :: 0 <= k < |a| ==> s[k] == a[k];
    assert forall k :: |a| < k <= |s| ==> s[..k][|a|] == c;
  }

  /**
    A line ended by any boundary but the `\r` of a `\r\n` pair is the first
    line, and the lines of the rest follow it.
   */
  lemma SplitLinesBoundary(a: string, c: char, b: string)
    requires NoLineBoundary(a) && IsLineBoundary(c)
    requires !(c == '\r' && |b| > 0 && b[0] == '\n')
    ensures SplitLines(a + [c] + b) == [a] + SplitLines(b)
  {
    var s := a + [c] + b;
    LineEndAt(a, c, b);
    assert s[|a|] == c;
    assert forall k :: 0 <= k < |b| ==> s[|a| + 1 + k] == b[k];
    assert s[..|a|] == a && s[|a| + 1..] == b;
  }

  /** A `\r\n` pair ends a line as one boundary. */
  lemma SplitLinesCrLf(a: string, b: string)
    requires NoLineBoundary(a)
    ensures SplitLines(a + "\r\n" + b) == [a] + SplitLines(b)
  {
    var s := a + "\r\n" + b;
    assert s == a + ['\r'] + ("\n" + b);
    LineEndAt(a, '\r', "\n" + b);
    assert s[|a|] == '\r' && s[|a| + 1] == '\n';
    assert s[..|a|] == a && s[|a| + 2..] == b;
  }

  /** Text without a boundary is one line. */
  lemma SplitLinesLast(a: string)
    requires a != [] && NoLineBoundary(a)
    ensures SplitLines(a) == [a]
  {
    assert a[..|a|] == a;
    assert a[|a|..] == [];
  }

  /** `t` occurs in `s` as a run of consecutive characters. */
  predicate IsSubstring(t: string, s: string)
  {
    exists i, j :: 0 <= i <= j <= |s| && s[i..j] == t
  }
}
