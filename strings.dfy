/**
 * The JavaScript string operations the core relies on: `split` with a
 * string separator, `.pop()` of its result, `trim`, the ASCII parts of
 * `toUpperCase` / `toLowerCase`, and decimal digits.
 */
module Strings {

  /** `sep` occurs in `s` starting at index `i`. */
  predicate HasAt(s: string, sep: string, i: nat) {
    i + |sep| <= |s| && s[i..i + |sep|] == sep
  }

  /** `sep` occurs nowhere in `s`. */
  ghost predicate NoOccurrence(s: string, sep: string) {
    forall i: nat :: !HasAt(s, sep, i)
  }

  /**
   * `s.split(sep)` for a non-empty separator: scanning left to right, every
   * occurrence of `sep` that does not overlap an earlier one ends a piece.
   * `cur` is the piece collected so far.
   */
  function SplitFrom(s: string, sep: string, cur: string): (parts: seq<string>)
    requires |sep| > 0
    ensures |parts| >= 1
    decreases |s|
  {
    if |s| < |sep| then [cur + s]
    else if s[..|sep|] == sep then [cur] + SplitFrom(s[|sep|..], sep, "")
    else SplitFrom(s[1..], sep, cur + [s[0]])
  }

  function Split(s: string, sep: string): (parts: seq<string>)
    requires |sep| > 0
    ensures |parts| >= 1
  {
    SplitFrom(s, sep, "")
  }

  function Last<T>(s: seq<T>): T
    requires |s| > 0
  {
    s[|s| - 1]
  }

  /** `s.split(sep).pop()`: the piece after the last separator the scan used. */
  function LastPiece(s: string, sep: string): string
    requires |sep| > 0
  {
    Last(Split(s, sep))
  }

  /** Without an occurrence of the separator the scan yields one piece. */
  lemma {:induction false} SplitWithoutSeparator(s: string, sep: string, cur: string)
    requires |sep| > 0
    requires NoOccurrence(s, sep)
    ensures SplitFrom(s, sep, cur) == [cur + s]
    decreases |s|
  {
    if |s| < |sep| {
    } else {
      assert !HasAt(s, sep, 0);
      assert s[..|sep|] != sep;
      forall i: nat ensures !HasAt(s[1..], sep, i) {
        assert !HasAt(s, sep, i + 1);
        if i + |sep| <= |s| - 1 {
          assert s[1..][i..i + |sep|] == s[i + 1..i + 1 + |sep|];
        }
      }
      SplitWithoutSeparator(s[1..], sep, cur + [s[0]]);
      assert (cur + [s[0]]) + s[1..] == cur + s;
    }
  }

  /** A string without the separator is its own `split(sep).pop()`. */
  lemma LastPieceWithoutSeparator(s: string, sep: string)
    requires |sep| > 0
    requires NoOccurrence(s, sep)
    ensures LastPiece(s, sep) == s
  {
    SplitWithoutSeparator(s, sep, "");
  }

  /** A string that lacks the only character of a one-character separator. */
  lemma NoOccurrenceOfChar(s: string, c: char)
    requires c !in s
    ensures NoOccurrence(s, [c])
  {
    forall i: nat ensures !HasAt(s, [c], i) {
      if i + 1 <= |s| {
        assert s[i..i + 1] == [s[i]];
      }
    }
  }

  /**
   * Appending `"/" + k` to a string whose last piece grows by nothing else
   * adds exactly the piece `k` (for a one-character separator `c` absent
   * from `k`).
   */
  lemma {:induction false} SplitAppend(p: string, c: char, k: string, cur: string)
    requires c !in k
    ensures SplitFrom(p + [c] + k, [c], cur) == SplitFrom(p, [c], cur) + [k]
    decreases |p|
  {
    var s := p + [c] + k;
    if |p| == 0 {
      assert s[..1] == [c];
      assert s[1..] == k;
      NoOccurrenceOfChar(k, c);
      SplitWithoutSeparator(k, [c], "");
      assert "" + k == k;
      assert cur + "" == cur;
    } else {
      assert s[1..] == p[1..] + [c] + k;
      if p[0] == c {
        assert s[..1] == [c];
        assert p[..1] == [c];
        SplitAppend(p[1..], c, k, "");
      } else {
        assert s[0] == p[0];
        assert s[..1] != [c];
        assert p[..1] != [c];
        if |p| < 1 {
        } else {
          SplitAppend(p[1..], c, k, cur + [p[0]]);
        }
      }
    }
  }

  /** `(p + "/" + k).split("/")` is `p.split("/")` followed by `k`. */
  lemma SplitPathAppend(p: string, k: string)
    requires '/' !in k
    ensures Split(p + "/" + k, "/") == Split(p, "/") + [k]
  {
    SplitAppend(p, '/', k, "");
  }

  /**
   * A separator whose last character occurs nowhere else in it cannot
   * start inside `pre` and end inside itself.
   */
  lemma NoEarlyMatch(pre: string, sep: string, rest: string)
    requires 0 < |pre| < |sep|
    requires sep[|sep| - 1] !in sep[..|sep| - 1]
    ensures (pre + sep + rest)[..|sep|] != sep
  {
    var s := pre + sep + rest;
    var k := |sep| - 1 - |pre|;
    assert s[|sep| - 1] == sep[k];
    assert sep[k] == sep[..|sep| - 1][k];
  }

  /**
   * `(pre + sep + rest).split(sep).pop()` is `rest` when the last character
   * of `sep` occurs neither earlier in `sep` nor in `rest`.
   */
  lemma {:induction false} SplitLastAfter(pre: string, sep: string, rest: string, cur: string)
    requires |sep| > 0
    requires sep[|sep| - 1] !in sep[..|sep| - 1] && sep[|sep| - 1] !in rest
    ensures Last(SplitFrom(pre + sep + rest, sep, cur)) == rest
    decreases |pre|
  {
    var s := pre + sep + rest;
    if |pre| == 0 {
      assert s == sep + rest;
      assert s[..|sep|] == sep && s[|sep|..] == rest;
      forall i: nat ensures !HasAt(rest, sep, i) {
        if i + |sep| <= |rest| {
          assert rest[i + |sep| - 1] == rest[i..i + |sep|][|sep| - 1];
          assert rest[i + |sep| - 1] in rest;
        }
      }
      SplitWithoutSeparator(rest, sep, "");
      assert "" + rest == rest;
    } else if |pre| < |sep| {
      NoEarlyMatch(pre, sep, rest);
      assert s[1..] == pre[1..] + sep + rest;
      SplitLastAfter(pre[1..], sep, rest, cur + [s[0]]);
    } else if pre[..|sep|] == sep {
      assert s[..|sep|] == sep;
      assert s[|sep|..] == pre[|sep|..] + sep + rest;
      SplitLastAfter(pre[|sep|..], sep, rest, "");
    } else {
      assert s[..|sep|] == pre[..|sep|];
      assert s[1..] == pre[1..] + sep + rest;
      SplitLastAfter(pre[1..], sep, rest, cur + [s[0]]);
    }
  }

  /** The same for `split(sep).pop()`. */
  lemma LastPieceAfter(pre: string, sep: string, rest: string)
    requires |sep| > 0
    requires sep[|sep| - 1] !in sep[..|sep| - 1] && sep[|sep| - 1] !in rest
    ensures LastPiece(pre + sep + rest, sep) == rest
  {
    SplitLastAfter(pre, sep, rest, "");
  }

  // ---------------------------------------------------------------------
  // Characters

  /**
   * The characters of the ECMAScript `WhiteSpace` and `LineTerminator`
   * productions: what `\s` matches and what `trim` removes.
   */
  predicate IsJsWhitespace(c: char) {
    c == '\t' || c == '\n' || c == '\U{B}' || c == '\U{C}' || c == '\r' || c == ' '
    || c == '\U{A0}' || c == '\U{1680}' || ('\U{2000}' <= c <= '\U{200A}')
    || c == '\U{2028}' || c == '\U{2029}' || c == '\U{202F}' || c == '\U{205F}'
    || c == '\U{3000}' || c == '\U{FEFF}'
  }

  /** `s.trimStart()`: the leading whitespace, and nothing more, removed. */
  function TrimStart(s: string): (r: string)
    ensures |r| <= |s| && r == s[|s| - |r|..]
    ensures forall i :: 0 <= i < |s| - |r| ==> IsJsWhitespace(s[i])
    ensures |r| > 0 ==> !IsJsWhitespace(r[0])
    decreases |s|
  {
    if |s| > 0 && IsJsWhitespace(s[0]) then TrimStart(s[1..]) else s
  }

  /** `s.trimEnd()`: the trailing whitespace, and nothing more, removed. */
  function TrimEnd(s: string): (r: string)
    ensures |r| <= |s| && r == s[..|r|]
    ensures forall i :: |r| <= i < |s| ==> IsJsWhitespace(s[i])
    ensures |r| > 0 ==> !IsJsWhitespace(r[|r| - 1])
    decreases |s|
  {
    if |s| > 0 && IsJsWhitespace(s[|s| - 1]) then TrimEnd(s[..|s| - 1]) else s
  }

  /** `s.trim()`. */
  function Trim(s: string): string {
    TrimEnd(TrimStart(s))
  }

  /** `trim` leaves a string without surrounding whitespace as it is. */
  lemma TrimNoWhitespace(s: string)
    requires forall i :: 0 <= i < |s| ==> !IsJsWhitespace(s[i])
    ensures Trim(s) == s
  {
  }

  /** `trim` leaves a string that starts and ends without whitespace as it is. */
  lemma TrimKeepsEnds(s: string)
    requires |s| > 0 && !IsJsWhitespace(s[0]) && !IsJsWhitespace(s[|s| - 1])
    ensures Trim(s) == s
  {
  }

  predicate IsAsciiUpper(c: char) { 'A' <= c <= 'Z' }
  predicate IsAsciiLower(c: char) { 'a' <= c <= 'z' }
  predicate IsDigit(c: char) { '0' <= c <= '9' }

  /** `toUpperCase` on one character, for the ASCII letters. */
  function UpperChar(c: char): char {
    if IsAsciiLower(c) then (c as int - 32) as char else c
  }

  /** `toLowerCase` on one character, for the ASCII letters. */
  function LowerChar(c: char): char {
    if IsAsciiUpper(c) then (c as int + 32) as char else c
  }

  /** The value of a non-empty run of decimal digits. */
  function DigitsValue(s: string): (n: nat)
    requires forall i :: 0 <= i < |s| ==> IsDigit(s[i])
    decreases |s|
  {
    if |s| == 0 then 0
    else DigitsValue(s[..|s| - 1]) * 10 + DigitValue(s[|s| - 1])
  }

  function DigitValue(c: char): (d: nat)
    requires IsDigit(c)
    ensures d < 10
  {
    c as int - '0' as int
  }

  predicate AllDigits(s: string) {
    forall i :: 0 <= i < |s| ==> IsDigit(s[i])
  }

  /** The decimal spelling of an integer, as template literals print it. */
  function IntToString(n: int): string
    decreases if n < 0 then -n + 1 else n
  {
    if n < 0 then "-" + IntToString(-n)
    else if n < 10 then [('0' as int + n) as char]
    else IntToString(n / 10) + [('0' as int + n % 10) as char]
  }
}
