/**
 * String operations of the JavaScript runtime that the content script relies on:
 * ASCII lower-casing, `trim`, `includes`, `slice(0, n)`, `a || b` on strings,
 * `replace(/\n/g, ' ')` and `join('\n')` (with its inverse, `split('\n')`).
 */
module Text {
  import opened Wrappers

  predicate IsAsciiLetter(c: char) {
    'a' <= c <= 'z' || 'A' <= c <= 'Z'
  }

  /** `\w` of a regular expression without the `u` flag: ASCII letters, digits and `_`. */
  predicate IsWordChar(c: char) {
    IsAsciiLetter(c) || ('0' <= c <= '9') || c == '_'
  }

  function LowerChar(c: char): char {
    if 'A' <= c <= 'Z' then (c as int + 32) as char else c
  }

  /** `toLowerCase`, restricted to ASCII letters; every other character is kept. */
  function Lower(s: string): (r: string)
    ensures |r| == |s|
    ensures forall i :: 0 <= i < |s| ==> r[i] == LowerChar(s[i])
  {
    seq(|s|, i requires 0 <= i < |s| => LowerChar(s[i]))
  }

  /** Lower-casing changes ASCII upper-case letters only, leaves none behind, and is idempotent. */
  lemma LowerFacts(s: string)
    ensures forall i :: 0 <= i < |s| ==> ('A' <= s[i] <= 'Z' || Lower(s)[i] == s[i])
    ensures forall i :: 0 <= i < |s| ==> !('A' <= Lower(s)[i] <= 'Z')
    ensures forall i :: 0 <= i < |s| ==> (IsAsciiLetter(Lower(s)[i]) <==> IsAsciiLetter(s[i]))
    ensures Lower(Lower(s)) == Lower(s)
  {
  }

  /** The characters `String.prototype.trim` removes: ECMAScript WhiteSpace and LineTerminator. */
  predicate IsJsWhitespace(c: char) {
    c == '\t' || c == '\n' || c == '\U{000B}' || c == '\U{000C}' || c == '\r' || c == ' '
    || c == '\U{00A0}' || c == '\U{1680}' || ('\U{2000}' <= c <= '\U{200A}')
    || c == '\U{2028}' || c == '\U{2029}' || c == '\U{202F}' || c == '\U{205F}'
    || c == '\U{3000}' || c == '\U{FEFF}'
  }

  function TrimStart(s: string): (r: string)
    ensures |r| <= |s| && r == s[|s| - |r|..]
    ensures r == [] || !IsJsWhitespace(r[0])
    ensures forall i :: 0 <= i < |s| - |r| ==> IsJsWhitespace(s[i])
  {
    if s != [] && IsJsWhitespace(s[0]) then TrimStart(s[1..]) else s
  }

  function TrimEnd(s: string): (r: string)
    ensures |r| <= |s| && r == s[..|r|]
    ensures r == [] || !IsJsWhitespace(r[|r| - 1])
    ensures forall i :: |r| <= i < |s| ==> IsJsWhitespace(s[i])
  {
    if s != [] && IsJsWhitespace(s[|s| - 1]) then TrimEnd(s[..|s| - 1]) else s
  }

  /** `r` is the slice of `s` at `a`, and `s` holds only whitespace before and after it. */
  ghost predicate TrimmedAt(s: string, r: string, a: int) {
    0 <= a && a + |r| <= |s| && r == s[a..a + |r|]
    && (forall i :: 0 <= i < a ==> IsJsWhitespace(s[i]))
    && (forall i :: a + |r| <= i < |s| ==> IsJsWhitespace(s[i]))
  }

  /**
   * `s.trim()`: the result is a contiguous slice of `s` that neither starts nor ends with
   * whitespace, and everything cut away on either side is whitespace.
   */
  function Trim(s: string): (r: string)
    ensures |r| <= |s|
    ensures exists a :: TrimmedAt(s, r, a)
    ensures r == [] || (!IsJsWhitespace(r[0]) && !IsJsWhitespace(r[|r| - 1]))
  {
    var front := TrimStart(s);
    var r := TrimEnd(front);
    var a := |s| - |front|;
    assert r == s[a..a + |r|];
    assert r != [] ==> front[0] == r[0];
    assert TrimmedAt(s, r, a);
    r
  }

  /** A string made only of whitespace trims to the empty string, and trimming is idempotent. */
  lemma TrimFacts(s: string)
    ensures (forall i :: 0 <= i < |s| ==> IsJsWhitespace(s[i])) <==> Trim(s) == []
    ensures Trim(Trim(s)) == Trim(s)
  {
    var r := Trim(s);
    if r != [] {
      assert !IsJsWhitespace(r[0]);
      var a :| TrimmedAt(s, r, a);
      assert s[a] == r[0];
    } else {
      var a :| TrimmedAt(s, r, a);
      assert forall i :: 0 <= i < |s| ==> IsJsWhitespace(s[i]) by {
        forall i | 0 <= i < |s| ensures IsJsWhitespace(s[i]) {
          if i >= a { assert a + |r| <= i; }
        }
      }
    }
    assert TrimStart(r) == r;
    assert TrimEnd(r) == r;
  }

  /** `pat` occurs in `s` starting at position `p`. */
  predicate IsAt(s: string, pat: string, p: int) {
    0 <= p && p + |pat| <= |s| && s[p..p + |pat|] == pat
  }

  /** A pattern holding a character that `s` lacks occurs nowhere in `s`. */
  lemma AbsentCharNoMatch(s: string, pat: string, k: nat)
    requires k < |pat| && pat[k] !in s
    ensures forall q :: !IsAt(s, pat, q)
  {
    forall q ensures !IsAt(s, pat, q) {
      if 0 <= q && q + |pat| <= |s| {
        assert s[q..q + |pat|][k] == s[q + k];
      }
    }
  }

  /** The leftmost occurrence of `pat` in `s` at or after position `i` (`s.indexOf(pat, i)`). */
  function FindFrom(s: string, pat: string, i: nat): (r: Option<nat>)
    ensures r.Some? ==> i <= r.value && IsAt(s, pat, r.value)
    ensures r.Some? ==> forall q :: i <= q < r.value ==> !IsAt(s, pat, q)
    ensures r.None? ==> forall q :: i <= q ==> !IsAt(s, pat, q)
    decreases |s| - i
  {
    if i + |pat| > |s| then None
    else if s[i..i + |pat|] == pat then Some(i)
    else FindFrom(s, pat, i + 1)
  }

  lemma SliceShift(a: string, b: string, x: nat, y: nat)
    requires x <= y <= |b|
    ensures (a + b)[|a| + x..|a| + y] == b[x..y]
  {
  }

  /** An occurrence inside `b` is one inside `a + b`, shifted by `|a|`. */
  lemma IsAtShift(a: string, b: string, pat: string, j: nat)
    ensures IsAt(a + b, pat, |a| + j) == IsAt(b, pat, j)
  {
    if j + |pat| <= |b| {
      assert (a + b)[|a| + j..|a| + j + |pat|] == b[j..j + |pat|];
    }
  }

  /** A pattern absent from `s` is absent from `s` without its first character. */
  lemma NoMatchDropFirst(s: string, pat: string)
    requires s != [] && forall q :: !IsAt(s, pat, q)
    ensures forall q :: !IsAt(s[1..], pat, q)
  {
    assert s[..1] + s[1..] == s;
    forall q: nat ensures !IsAt(s[1..], pat, q) {
      IsAtShift(s[..1], s[1..], pat, q);
    }
  }

  /** An occurrence with none before it, at or after `i`, is the one `FindFrom` reports. */
  lemma FindFromFirst(s: string, pat: string, i: nat, x: nat)
    requires i <= x && IsAt(s, pat, x)
    requires forall q :: i <= q < x ==> !IsAt(s, pat, q)
    ensures FindFrom(s, pat, i) == Some(x)
  {
  }

  /** `s.includes(sub)`. */
  function Contains(s: string, sub: string): (b: bool)
    ensures b <==> exists q :: IsAt(s, sub, q)
  {
    FindFrom(s, sub, 0).Some?
  }

  /** JavaScript's `a || b` on two strings: `a` unless it is empty. */
  function OrElse(a: string, b: string): (r: string)
    ensures a != [] ==> r == a
    ensures a == [] ==> r == b
    ensures r == [] <==> a == [] && b == []
  {
    if a != [] then a else b
  }

  /** `s.replace(/\n/g, ' ')`. */
  function NewlinesToSpaces(s: string): (r: string)
    ensures |r| == |s| && '\n' !in r
    ensures forall i :: 0 <= i < |s| && s[i] == '\n' ==> r[i] == ' '
    ensures forall i :: 0 <= i < |s| && s[i] != '\n' ==> r[i] == s[i]
  {
    seq(|s|, i requires 0 <= i < |s| => if s[i] == '\n' then ' ' else s[i])
  }

  /** `parts.join('\n')`. */
  function JoinLines(parts: seq<string>): string
  {
    if parts == [] then ""
    else if |parts| == 1 then parts[0]
    else parts[0] + "\n" + JoinLines(parts[1..])
  }

  /** `s.split('\n')`; it always yields at least one piece. */
  function SplitLines(s: string): (r: seq<string>)
    ensures |r| >= 1
  {
    if s == [] then [""]
    else
      var rest := SplitLines(s[1..]);
      if s[0] == '\n' then [""] + rest else [[s[0]] + rest[0]] + rest[1..]
  }

  lemma {:induction false} SplitLinesNoNewline(s: string)
    requires '\n' !in s
    ensures SplitLines(s) == [s]
  {
    if s != [] {
      SplitLinesNoNewline(s[1..]);
      assert [s[0]] + s[1..] == s;
    }
  }

  lemma {:induction false} SplitLinesAfterLine(p: string, rest: string)
    requires '\n' !in p
    ensures SplitLines(p + "\n" + rest) == [p] + SplitLines(rest)
  {
    if p == [] {
      assert p + "\n" + rest == "\n" + rest;
      assert ("\n" + rest)[1..] == rest;
    } else {
      var s := p + "\n" + rest;
      assert s[1..] == p[1..] + "\n" + rest;
      SplitLinesAfterLine(p[1..], rest);
      assert [p[0]] + p[1..] == p;
    }
  }

  /** Joining lines that contain no newline and splitting again gives back the lines. */
  lemma {:induction false} SplitJoinLines(parts: seq<string>)
    requires parts != []
    requires forall k :: 0 <= k < |parts| ==> '\n' !in parts[k]
    ensures SplitLines(JoinLines(parts)) == parts
  {
    if |parts| == 1 {
      SplitLinesNoNewline(parts[0]);
    } else {
      SplitJoinLines(parts[1..]);
      SplitLinesAfterLine(parts[0], JoinLines(parts[1..]));
      assert [parts[0]] + parts[1..] == parts;
    }
  }

  /** Splitting at newlines and joining again gives back the string. */
  lemma {:induction false} JoinSplitLines(s: string)
    ensures JoinLines(SplitLines(s)) == s
  {
    if s != [] {
      var rest := SplitLines(s[1..]);
      JoinSplitLines(s[1..]);
      if s[0] == '\n' {
        assert JoinLines([""] + rest) == "" + "\n" + JoinLines(rest);
      } else {
        var r := [[s[0]] + rest[0]] + rest[1..];
        if |rest| == 1 {
          assert JoinLines(r) == [s[0]] + rest[0];
        } else {
          assert JoinLines(rest) == rest[0] + "\n" + JoinLines(rest[1..]);
          assert r[1..] == rest[1..];
          assert JoinLines(r) == ([s[0]] + rest[0]) + "\n" + JoinLines(rest[1..]);
        }
      }
    }
  }

  /** The parts that are non-empty strings, in order (`filter(Boolean)` on strings). */
  function NonEmpty(parts: seq<string>): (r: seq<string>)
    ensures forall k :: 0 <= k < |r| ==> r[k] != []
    ensures forall x :: x in r <==> x in parts && x != []
  {
    if parts == [] then []
    else (if parts[0] != [] then [parts[0]] else []) + NonEmpty(parts[1..])
  }

  /** `parts.filter(Boolean).join('\n')`. */
  function JoinNonEmpty(parts: seq<string>): string
  {
    JoinLines(NonEmpty(parts))
  }

  /** Two parts: the non-empty ones, on separate lines. */
  lemma JoinNonEmptyPair(a: string, b: string)
    ensures JoinNonEmpty([a, b]) == if a == [] then b else if b == [] then a else a + "\n" + b
  {
    assert [a, b][1..] == [b];
    assert NonEmpty([a, b]) == (if a != [] then [a] else []) + NonEmpty([b]);
    assert [b][1..] == [];
    assert NonEmpty([b]) == (if b != [] then [b] else []);
    assert JoinLines([a, b]) == a + "\n" + JoinLines([b]);
  }

  lemma {:induction false} JoinLinesEmpty(parts: seq<string>)
    requires forall k :: 0 <= k < |parts| ==> parts[k] != []
    ensures JoinLines(parts) == [] <==> parts == []
  {
    if |parts| > 1 {
      assert |JoinLines(parts)| >= |parts[0]|;
    }
  }

  /**
   * The non-empty join is empty exactly when every part is empty, and when no part holds a
   * newline and some part is non-empty, splitting it gives back the non-empty parts.
   */
  lemma JoinNonEmptyFacts(parts: seq<string>)
    ensures JoinNonEmpty(parts) == [] <==> forall k :: 0 <= k < |parts| ==> parts[k] == []
    ensures (exists k :: 0 <= k < |parts| && parts[k] != [])
         && (forall k :: 0 <= k < |parts| ==> '\n' !in parts[k])
        ==> SplitLines(JoinNonEmpty(parts)) == NonEmpty(parts)
  {
    var ne := NonEmpty(parts);
    JoinLinesEmpty(ne);
    if ne == [] {
      forall k | 0 <= k < |parts| ensures parts[k] == [] {
        assert parts[k] in parts;
      }
    } else {
      assert ne[0] in parts;
      if forall k :: 0 <= k < |parts| ==> '\n' !in parts[k] {
        forall k | 0 <= k < |ne| ensures '\n' !in ne[k] {
          assert ne[k] in parts;
        }
        SplitJoinLines(ne);
      }
    }
  }
}
