/**
 * String helpers for the Python string operations the crawler uses:
 * `str.lower`, `str.startswith`, `str.endswith`, `in`, `str.count`,
 * `str.split(sep)`, `str.split()` and `sep.join(...)`.
 * Characters are Dafny `char`s; case folding is ASCII only.
 */
module Strings {

  /** An ASCII decimal digit (what `\d` and `str.isdigit` accept on ASCII text). */
  predicate IsDigit(c: char) {
    '0' <= c <= '9'
  }

  /** A character of the ASCII `\w` class: letters, digits and the underscore. */
  predicate IsWordChar(c: char) {
    ('a' <= c <= 'z') || ('A' <= c <= 'Z') || IsDigit(c) || c == '_'
  }

  /** The characters `str.split()` with no argument treats as whitespace. */
  predicate IsSpace(c: char) {
    c == ' ' || ('\t' <= c <= '\r') || ('\U{1c}' <= c <= '\U{1f}') || c == '\U{85}' || c == '\U{a0}'
    || c == '\U{1680}' || ('\U{2000}' <= c <= '\U{200a}') || c == '\U{2028}' || c == '\U{2029}'
    || c == '\U{202f}' || c == '\U{205f}' || c == '\U{3000}'
  }

  predicate NotWordChar(c: char) {
    !IsWordChar(c)
  }

  function LowerChar(c: char): char {
    if 'A' <= c <= 'Z' then (c as int + 32) as char else c
  }

  /** `s.lower()` on ASCII letters; every other character is kept. */
  function Lower(s: string): string {
    seq(|s|, i requires 0 <= i < |s| => LowerChar(s[i]))
  }

  /** Lower-casing works character by character, so it distributes over concatenation. */
  lemma LowerAppend(a: string, b: string)
    ensures Lower(a + b) == Lower(a) + Lower(b)
  {
    assert forall i :: 0 <= i < |a| + |b| ==> Lower(a + b)[i] == (Lower(a) + Lower(b))[i];
  }

  /** Lower-casing twice is lower-casing once; a lower-cased string has no upper-case ASCII letter. */
  lemma LowerIdempotent(s: string)
    ensures Lower(Lower(s)) == Lower(s)
    ensures forall i :: 0 <= i < |s| ==> !('A' <= Lower(s)[i] <= 'Z')
  {
  }

  predicate StartsWith(s: string, prefix: string) {
    |prefix| <= |s| && s[..|prefix|] == prefix
  }

  predicate EndsWith(s: string, suffix: string) {
    |suffix| <= |s| && s[|s| - |suffix|..] == suffix
  }

  /** `sub` occurs in `s` starting at index `i`. */
  predicate OccursAt(s: string, sub: string, i: int) {
    0 <= i <= |s| - |sub| && s[i..i + |sub|] == sub
  }

  /** `sub in s`. */
  predicate Contains(s: string, sub: string) {
    exists i | 0 <= i <= |s| :: OccursAt(s, sub, i)
  }

  /** `s.count(c)` for a one-character argument. */
  function Count(s: string, c: char): nat
  {
    if s == [] then 0 else (if s[0] == c then 1 else 0) + Count(s[1..], c)
  }

  /** `sep.join(parts)`. */
  function Join(parts: seq<string>, sep: string): string
  {
    if |parts| == 0 then ""
    else if |parts| == 1 then parts[0]
    else parts[0] + sep + Join(parts[1..], sep)
  }

  /**
   * `s.split(sep)` for a one-character separator: the text between consecutive
   * separators, so there is always one part more than there are separators.
   */
  function Split(s: string, sep: char): (parts: seq<string>)
    ensures |parts| == Count(s, sep) + 1
    ensures forall i :: 0 <= i < |parts| ==> sep !in parts[i]
    decreases |s|
  {
    if s == [] then [[]]
    else
      var rest := Split(s[1..], sep);
      if s[0] == sep then [[]] + rest
      else [[s[0]] + rest[0]] + rest[1..]
  }

  /** Joining the parts of a split with the separator gives back the string. */
  lemma {:induction false} JoinSplit(s: string, sep: char)
    ensures Join(Split(s, sep), [sep]) == s
    decreases |s|
  {
    if s != [] {
      var rest := Split(s[1..], sep);
      JoinSplit(s[1..], sep);
      if s[0] == sep {
        assert Split(s, sep) == [[]] + rest;
      } else {
        var parts := [[s[0]] + rest[0]] + rest[1..];
        assert Split(s, sep) == parts;
        if |rest| > 1 {
          assert parts[1..] == rest[1..];
          assert Join(rest, [sep]) == rest[0] + [sep] + Join(rest[1..], [sep]);
        }
      }
    }
  }

  /**
   * The length of the run of characters at the head of `s` that are not
   * separators.
   */
  function RunLength(s: string, isSep: char -> bool): (n: nat)
    requires s != [] && !isSep(s[0])
    ensures 1 <= n <= |s|
    ensures forall i :: 0 <= i < n ==> !isSep(s[i])
    ensures n < |s| ==> isSep(s[n])
    decreases |s|
  {
    if |s| == 1 || isSep(s[1]) then 1 else 1 + RunLength(s[1..], isSep)
  }

  /** A maximal non-empty run of characters none of which is a separator. */
  predicate IsRun(w: string, isSep: char -> bool) {
    w != [] && forall i :: 0 <= i < |w| ==> !isSep(w[i])
  }

  /** The maximal runs of non-separator characters of `s`, in order. */
  function Runs(s: string, isSep: char -> bool): (ws: seq<string>)
    ensures forall i :: 0 <= i < |ws| ==> IsRun(ws[i], isSep)
    decreases |s|
  {
    if s == [] then []
    else if isSep(s[0]) then Runs(s[1..], isSep)
    else
      var n := RunLength(s, isSep);
      [s[..n]] + Runs(s[n..], isSep)
  }

  /** `s.split()`: the whitespace-separated words of `s`. */
  function Words(s: string): seq<string>
  {
    Runs(s, IsSpace)
  }

  /** `re.findall(r'\b\w+\b', s)`: the maximal runs of word characters of `s`. */
  function WordTokens(s: string): seq<string>
  {
    Runs(s, NotWordChar)
  }

  /** A run followed by a separator or by nothing is split off as one word. */
  lemma RunsOfRunThen(w: string, rest: string, isSep: char -> bool)
    requires IsRun(w, isSep)
    requires rest == [] || isSep(rest[0])
    ensures Runs(w + rest, isSep) == [w] + Runs(rest, isSep)
  {
    var s := w + rest;
    var n := RunLength(s, isSep);
    assert forall i :: 0 <= i < |w| ==> s[i] == w[i];
    assert rest != [] ==> s[|w|] == rest[0];
    assert n == |w|;
    assert s[..n] == w;
    assert s[n..] == rest;
  }

  /**
   * Splitting the space-joined words back into words gives the words:
   * `' '.join(ws).split() == ws` when no word is empty or holds whitespace.
   */
  lemma {:induction false} WordsOfJoin(ws: seq<string>)
    requires forall i :: 0 <= i < |ws| ==> IsRun(ws[i], IsSpace)
    ensures Words(Join(ws, " ")) == ws
    decreases |ws|
  {
    if |ws| == 1 {
      RunsOfRunThen(ws[0], [], IsSpace);
      assert ws[0] + [] == ws[0];
    } else if |ws| > 1 {
      var tail := Join(ws[1..], " ");
      WordsOfJoin(ws[1..]);
      assert Join(ws, " ") == ws[0] + (" " + tail);
      RunsOfRunThen(ws[0], " " + tail, IsSpace);
      assert (" " + tail)[1..] == tail;
      assert ws == [ws[0]] + ws[1..];
    }
  }
}
