/**
 * The string helpers of the playground snippet generator: the variable
 * name derived from a task name, and the substitution of long base 64
 * string literals by code that loads a file.
 */
module Playground {
  import opened Wrappers
  import opened Strings

  // ---------------------------------------------------------------------
  // validVarName

  /** The characters `[a-z0-9_$]` with the `i` flag keeps. */
  predicate IsVarNameChar(c: char) {
    IsAsciiUpper(c) || IsAsciiLower(c) || IsDigit(c) || c == '_' || c == '$'
  }

  /** The separators of `/-|\s/`. */
  predicate IsPartSeparator(c: char) {
    c == '-' || IsJsWhitespace(c)
  }

  /** `s.split(/-|\s/)`, with `cur` the part read so far. */
  function SplitPartsFrom(s: string, cur: string): (parts: seq<string>)
    ensures |parts| >= 1
    decreases |s|
  {
    if |s| == 0 then [cur]
    else if IsPartSeparator(s[0]) then [cur] + SplitPartsFrom(s[1..], "")
    else SplitPartsFrom(s[1..], cur + [s[0]])
  }

  function SplitParts(s: string): seq<string> {
    SplitPartsFrom(s, "")
  }

  /** First letter upper-cased, the rest as it is. */
  function Capitalize(part: string): (r: string)
    ensures |r| == |part|
    ensures |r| > 0 ==> r[0] == UpperChar(part[0]) && r[1..] == part[1..]
  {
    if |part| == 0 then "" else [UpperChar(part[0])] + part[1..]
  }

  /** The capitalised parts, joined without separator. */
  function JoinCapitalized(parts: seq<string>): string
    decreases |parts|
  {
    if |parts| == 0 then "" else Capitalize(parts[0]) + JoinCapitalized(parts[1..])
  }

  /** `.replace(/[^a-z0-9_$]/gi, '_')`. */
  function ReplaceInvalid(s: string): (r: string)
    ensures |r| == |s|
    ensures forall i :: 0 <= i < |s| ==> r[i] == if IsVarNameChar(s[i]) then s[i] else '_'
  {
    seq(|s|, i requires 0 <= i < |s| => if IsVarNameChar(s[i]) then s[i] else '_')
  }

  /** No two underscores in a row. */
  predicate NoDoubleUnderscore(s: string) {
    forall i :: 0 <= i < |s| - 1 ==> !(s[i] == '_' && s[i + 1] == '_')
  }

  /** All characters are variable-name characters. */
  predicate AllVarNameChars(s: string) {
    forall i :: 0 <= i < |s| ==> IsVarNameChar(s[i])
  }

  /**
   * `.replace(/_{2,}/g, '_')`: every run of underscores becomes one. The
   * result starts like the input, keeps it made of variable-name
   * characters, and is the input itself when there was nothing to
   * collapse.
   */
  function CollapseUnderscores(s: string): (r: string)
    ensures |s| > 0 ==> |r| > 0 && r[0] == s[0]
    ensures NoDoubleUnderscore(r)
    ensures AllVarNameChars(s) ==> AllVarNameChars(r)
    ensures NoDoubleUnderscore(s) ==> r == s
    decreases |s|
  {
    if |s| == 0 then ""
    else if |s| >= 2 && s[0] == '_' && s[1] == '_' then
      TailKeeps(s);
      CollapseUnderscores(s[1..])
    else
      TailKeeps(s);
      [s[0]] + CollapseUnderscores(s[1..])
  }

  /**
   * The same replacement, read from the end: a `_` is dropped exactly when
   * the character before it in the input is a `_` as well.
   */
  function Collapsed(s: string): string
    decreases |s|
  {
    if |s| == 0 then ""
    else if |s| >= 2 && s[|s| - 1] == '_' && s[|s| - 2] == '_' then Collapsed(s[..|s| - 1])
    else Collapsed(s[..|s| - 1]) + [s[|s| - 1]]
  }

  /** Appending one character to the input of `CollapseUnderscores`. */
  lemma {:induction false} CollapseSnoc(s: string, c: char)
    ensures CollapseUnderscores(s + [c]) ==
      if |s| > 0 && s[|s| - 1] == '_' && c == '_' then CollapseUnderscores(s) else CollapseUnderscores(s) + [c]
    decreases |s|
  {
    var t := s + [c];
    if |s| == 0 {
      assert t == [c];
      assert CollapseUnderscores(t) == [c] + CollapseUnderscores("");
    } else {
      assert t[1..] == s[1..] + [c];
      CollapseSnoc(s[1..], c);
      if |s| == 1 {
        assert s[1..] == "";
      } else {
        assert s[1..][|s[1..]| - 1] == s[|s| - 1];
      }
    }
  }

  /** `CollapseUnderscores` is `Collapsed`: exactly the underscores that follow an underscore are removed. */
  lemma {:induction false} CollapseUnderscoresIsCollapsed(s: string)
    ensures CollapseUnderscores(s) == Collapsed(s)
    decreases |s|
  {
    if |s| > 0 {
      var p := s[..|s| - 1];
      assert s == p + [s[|s| - 1]];
      CollapseUnderscoresIsCollapsed(p);
      CollapseSnoc(p, s[|s| - 1]);
      if |s| >= 2 {
        assert p[|p| - 1] == s[|s| - 2];
      }
    }
  }

  /** What holds of a text's characters and neighbours holds of its tail. */
  lemma TailKeeps(s: string)
    requires |s| > 0
    ensures AllVarNameChars(s) ==> AllVarNameChars(s[1..])
    ensures NoDoubleUnderscore(s) ==> NoDoubleUnderscore(s[1..])
    ensures s == [s[0]] + s[1..]
  {
    if NoDoubleUnderscore(s) {
      forall i | 0 <= i < |s[1..]| - 1 ensures !(s[1..][i] == '_' && s[1..][i + 1] == '_') {
        assert s[1..][i] == s[i + 1] && s[1..][i + 1] == s[i + 2];
      }
    }
    if AllVarNameChars(s) {
      forall i | 0 <= i < |s[1..]| ensures IsVarNameChar(s[1..][i]) {
        assert s[1..][i] == s[i + 1];
      }
    }
  }

  /** The first character lower-cased. */
  function LowerFirst(s: string): (r: string)
    ensures |r| == |s|
    ensures |r| > 0 ==> r[0] == LowerChar(s[0]) && r[1..] == s[1..]
  {
    if |s| == 0 then "" else [LowerChar(s[0])] + s[1..]
  }

  /** `validVarName(text)`. */
  function ValidVarName(text: string): string {
    LowerFirst(CollapseUnderscores(ReplaceInvalid(JoinCapitalized(SplitParts(Trim(text))))))
  }

  /**
   * A variable name is made of `[A-Za-z0-9_$]` only, so has no dash and no
   * whitespace, has no two underscores in a row, and does not start with
   * an upper-case letter.
   */
  predicate IsVarName(y: string) {
    && (forall i :: 0 <= i < |y| ==> IsVarNameChar(y[i]))
    && NoDoubleUnderscore(y)
    && (|y| > 0 ==> !IsAsciiUpper(y[0]))
  }

  lemma LowerFirstKeepsName(s: string)
    requires forall i :: 0 <= i < |s| ==> IsVarNameChar(s[i])
    requires NoDoubleUnderscore(s)
    ensures IsVarName(LowerFirst(s))
  {
    var r := LowerFirst(s);
    if |s| > 0 {
      forall i | 0 <= i < |r| ensures IsVarNameChar(r[i]) {
        if i > 0 {
          assert r[i] == s[1..][i - 1] == s[i];
        }
      }
      forall i | 0 <= i < |r| - 1 ensures !(r[i] == '_' && r[i + 1] == '_') {
        assert r[i + 1] == s[i + 1];
        if i > 0 {
          assert r[i] == s[i];
        }
      }
    }
  }

  /** Every result of `validVarName` is a variable name in that sense. */
  lemma ValidVarNameIsVarName(text: string)
    ensures IsVarName(ValidVarName(text))
  {
    var a := ReplaceInvalid(JoinCapitalized(SplitParts(Trim(text))));
    assert AllVarNameChars(a);
    LowerFirstKeepsName(CollapseUnderscores(a));
  }

  /** Text without separators is split into itself alone. */
  lemma {:induction false} SplitWithoutSeparators(s: string, cur: string)
    requires forall i :: 0 <= i < |s| ==> !IsPartSeparator(s[i])
    ensures SplitPartsFrom(s, cur) == [cur + s]
    decreases |s|
  {
    if |s| > 0 {
      assert !IsPartSeparator(s[0]);
      assert forall i :: 0 <= i < |s[1..]| ==> !IsPartSeparator(s[1..][i]) by {
        forall i | 0 <= i < |s[1..]| ensures !IsPartSeparator(s[1..][i]) {
          assert s[1..][i] == s[i + 1];
        }
      }
      assert SplitPartsFrom(s, cur) == SplitPartsFrom(s[1..], cur + [s[0]]);
      SplitWithoutSeparators(s[1..], cur + [s[0]]);
      assert cur + [s[0]] + s[1..] == cur + s;
    } else {
      assert cur + s == cur;
    }
  }

  /** The text up to a separator is the current part, and splitting starts afresh after it. */
  lemma {:induction false} SplitAtSeparator(w: string, c: char, rest: string, cur: string)
    requires forall i :: 0 <= i < |w| ==> !IsPartSeparator(w[i])
    requires IsPartSeparator(c)
    ensures SplitPartsFrom(w + [c] + rest, cur) == [cur + w] + SplitPartsFrom(rest, "")
    decreases |w|
  {
    if |w| == 0 {
      assert w + [c] + rest == [c] + rest;
      assert ([c] + rest)[1..] == rest;
      assert cur + w == cur;
    } else {
      assert (w + [c] + rest)[0] == w[0] && (w + [c] + rest)[1..] == w[1..] + [c] + rest;
      assert forall i :: 0 <= i < |w[1..]| ==> !IsPartSeparator(w[1..][i]) by {
        forall i | 0 <= i < |w[1..]| ensures !IsPartSeparator(w[1..][i]) {
          assert w[1..][i] == w[i + 1];
        }
      }
      SplitAtSeparator(w[1..], c, rest, cur + [w[0]]);
      assert cur + [w[0]] + w[1..] == cur + w;
    }
  }

  /** Variable-name characters are neither separators nor whitespace. */
  lemma VarNameCharsNotSeparators(y: string)
    requires forall i :: 0 <= i < |y| ==> IsVarNameChar(y[i])
    ensures forall i :: 0 <= i < |y| ==> !IsPartSeparator(y[i]) && !IsJsWhitespace(y[i])
  {
  }

  /** A text of variable-name characters is kept by the replacement of invalid characters. */
  lemma ReplaceInvalidKeeps(s: string)
    requires forall i :: 0 <= i < |s| ==> IsVarNameChar(s[i])
    ensures ReplaceInvalid(s) == s
  {
  }

  /** Capitalising a variable name keeps it valid, and lower-casing the first character undoes it. */
  lemma CapitalizeName(y: string)
    requires IsVarName(y)
    ensures forall i :: 0 <= i < |Capitalize(y)| ==> IsVarNameChar(Capitalize(y)[i])
    ensures NoDoubleUnderscore(Capitalize(y))
    ensures LowerFirst(Capitalize(y)) == y
  {
    var c := Capitalize(y);
    if |y| > 0 {
      assert c[0] == UpperChar(y[0]);
      forall i | 0 < i < |c| ensures c[i] == y[i] {
        assert c[i] == y[1..][i - 1];
      }
      assert c[0] == '_' <==> y[0] == '_';
      assert LowerChar(c[0]) == y[0];
      assert LowerFirst(c) == [y[0]] + y[1..];
      assert [y[0]] + y[1..] == y;
    }
  }

  /** `validVarName` leaves its own results unchanged. */
  lemma ValidVarNameIdempotent(text: string)
    ensures ValidVarName(ValidVarName(text)) == ValidVarName(text)
  {
    ValidVarNameIsVarName(text);
    VarNameFixed(ValidVarName(text));
  }

  /** A variable name is its own `validVarName`. */
  lemma VarNameFixed(y: string)
    requires IsVarName(y)
    ensures ValidVarName(y) == y
  {
    NameSplitsToItself(y);
    NameCapitalizedBack(y);
  }

  /** A variable name is trimmed, split and joined into its capitalised self. */
  lemma NameSplitsToItself(y: string)
    requires IsVarName(y)
    ensures JoinCapitalized(SplitParts(Trim(y))) == Capitalize(y)
  {
    VarNameCharsNotSeparators(y);
    if |y| > 0 {
      TrimKeepsEnds(y);
    }
    SplitWithoutSeparators(y, "");
    assert "" + y == y;
    assert JoinCapitalized([y]) == Capitalize(y) + "";
    assert Capitalize(y) + "" == Capitalize(y);
  }

  /** The remaining steps turn the capitalised name back into the name. */
  lemma NameCapitalizedBack(y: string)
    requires IsVarName(y)
    ensures LowerFirst(CollapseUnderscores(ReplaceInvalid(Capitalize(y)))) == y
  {
    CapitalizeName(y);
    ReplaceInvalidKeeps(Capitalize(y));
  }

  /** Three words between two separators are split into those words. */
  lemma SplitThreeWords(a: string, b: string, c: string, s1: char, s2: char)
    requires forall i :: 0 <= i < |a| ==> !IsPartSeparator(a[i])
    requires forall i :: 0 <= i < |b| ==> !IsPartSeparator(b[i])
    requires forall i :: 0 <= i < |c| ==> !IsPartSeparator(c[i])
    requires IsPartSeparator(s1) && IsPartSeparator(s2)
    ensures SplitParts(a + [s1] + b + [s2] + c) == [a, b, c]
  {
    assert a + [s1] + b + [s2] + c == a + [s1] + (b + [s2] + c);
    SplitAtSeparator(a, s1, b + [s2] + c, "");
    SplitAtSeparator(b, s2, c, "");
    SplitWithoutSeparators(c, "");
    assert "" + a == a && "" + b == b && "" + c == c;
  }

  /** The three words of the fixture, capitalised and joined. */
  lemma JoinFixtureWords(a: string, b: string, c: string)
    requires a == "my" && b == "task" && c == "name"
    ensures JoinCapitalized([a, b, c]) == "MyTaskName"
  {
    assert [a, b, c][1..] == [b, c] && [b, c][1..] == [c] && [c][1..] == [];
    assert JoinCapitalized([c]) == Capitalize(c) + "";
    assert JoinCapitalized([b, c]) == Capitalize(b) + JoinCapitalized([c]);
    assert JoinCapitalized([a, b, c]) == Capitalize(a) + JoinCapitalized([b, c]);
  }

  /**
   * Three words between separators become the joined capitalised words
   * with the first letter lower-cased, when they hold only variable-name
   * characters.
   */
  lemma CamelCaseThree(a: string, b: string, c: string, s1: char, s2: char)
    requires |a| > 0 && |c| > 0
    requires forall i :: 0 <= i < |a| ==> IsVarNameChar(a[i])
    requires forall i :: 0 <= i < |b| ==> IsVarNameChar(b[i])
    requires forall i :: 0 <= i < |c| ==> IsVarNameChar(c[i])
    requires NoDoubleUnderscore(JoinCapitalized([a, b, c]))
    requires IsPartSeparator(s1) && IsPartSeparator(s2)
    ensures ValidVarName(a + [s1] + b + [s2] + c) == LowerFirst(JoinCapitalized([a, b, c]))
  {
    var text := a + [s1] + b + [s2] + c;
    VarNameCharsNotSeparators(a);
    VarNameCharsNotSeparators(b);
    VarNameCharsNotSeparators(c);
    assert text[0] == a[0] && text[|text| - 1] == c[|c| - 1];
    TrimKeepsEnds(text);
    SplitThreeWords(a, b, c, s1, s2);
    var joined := JoinCapitalized([a, b, c]);
    assert forall i :: 0 <= i < |joined| ==> IsVarNameChar(joined[i]) by {
      JoinCapitalizedChars([a, b, c]);
    }
    ReplaceInvalidKeeps(joined);
  }

  /** Capitalising and joining words of variable-name characters gives variable-name characters. */
  lemma {:induction false} JoinCapitalizedChars(parts: seq<string>)
    requires forall k, i :: 0 <= k < |parts| && 0 <= i < |parts[k]| ==> IsVarNameChar(parts[k][i])
    ensures forall i :: 0 <= i < |JoinCapitalized(parts)| ==> IsVarNameChar(JoinCapitalized(parts)[i])
    decreases |parts|
  {
    if |parts| > 0 {
      JoinCapitalizedChars(parts[1..]);
      var p := Capitalize(parts[0]);
      forall i | 0 < i < |p| ensures p[i] == parts[0][i] {
        assert p[i] == parts[0][1..][i - 1];
      }
    }
  }

  /** Dash- and space-separated words become one camel-cased name: `my-task name` gives `myTaskName`. */
  lemma CamelCaseName(text: string, a: string, b: string, c: string)
    requires a == "my" && b == "task" && c == "name"
    requires text == a + "-" + b + " " + c
    ensures ValidVarName(text) == "myTaskName"
  {
    assert text == a + ['-'] + b + [' '] + c;
    JoinFixtureWords(a, b, c);
    var joined := "MyTaskName";
    assert NoDoubleUnderscore(joined);
    CamelCaseThree(a, b, c, '-', ' ');
    LowerFixture(joined);
  }

  lemma LowerFixture(joined: string)
    requires joined == "MyTaskName"
    ensures LowerFirst(joined) == "myTaskName"
  {
    assert LowerChar(joined[0]) == 'm';
    assert joined[1..] == "yTaskName";
    assert ['m'] + "yTaskName" == "myTaskName";
  }

  // ---------------------------------------------------------------------
  // base64DataToFileDataProvider

  /** `FileDataProvider`. */
  datatype FileDataProvider = FileSystem | Fetch | Axios

  /** The code that loads the file, for each provider. */
  function ProviderSnippet(p: FileDataProvider): (r: string)
    ensures |r| > 0 && r[0] != '"'
  {
    match p
    case FileSystem => "readFile(\"/path/to/file\")"
    case Fetch => "(await fetch(\"http://url.to/file\"))" + ".arrayBuffer()"
    case Axios => "(await axios.get(\"http://url.to/file\", " + "{ responseType: \"arraybuffer\" })).data"
  }

  /** The characters of `[-A-Za-z0-9+/]`. */
  predicate IsEncodedChar(c: char) {
    c == '-' || IsAsciiUpper(c) || IsAsciiLower(c) || IsDigit(c) || c == '+' || c == '/'
  }

  /** The length of the longest prefix of encoded characters. */
  function EncodedRun(s: string): (n: nat)
    ensures n <= |s|
    ensures forall i :: 0 <= i < n ==> IsEncodedChar(s[i])
    ensures n < |s| ==> !IsEncodedChar(s[n])
    decreases |s|
  {
    if |s| > 0 && IsEncodedChar(s[0]) then 1 + EncodedRun(s[1..]) else 0
  }

  /** The length of the longest prefix of `=`. */
  function PadRun(s: string): (n: nat)
    ensures n <= |s|
    ensures forall i :: 0 <= i < n ==> s[i] == '='
    ensures n < |s| ==> s[n] != '='
    decreases |s|
  {
    if |s| > 0 && s[0] == '=' then 1 + PadRun(s[1..]) else 0
  }

  /**
   * The length of the match of `/"[-A-Za-z0-9+/]{50,}={0,3}"/` at the
   * start of `s`, if any. Neither `=` nor `"` is an encoded character, so
   * the match takes the whole run of encoded characters and the whole run
   * of `=` after it, which must then end with `"`.
   */
  function LiteralMatch(s: string): (m: Option<nat>)
    ensures m.Some? ==> 2 <= m.value <= |s| && s[0] == '"'
  {
    if |s| > 0 && s[0] == '"' then
      var n := EncodedRun(s[1..]);
      var k := PadRun(s[1 + n..]);
      if n >= 50 && k <= 3 && 1 + n + k < |s| && s[1 + n + k] == '"' then Some(2 + n + k) else None
    else None
  }

  /** `s.replace(/"[-A-Za-z0-9+/]{50,}={0,3}"/g, snippet)`, scanning from the left. */
  function ReplaceLiterals(s: string, snippet: string): string
    decreases |s|
  {
    if |s| == 0 then ""
    else match LiteralMatch(s)
      case Some(m) => snippet + ReplaceLiterals(s[m..], snippet)
      case None => [s[0]] + ReplaceLiterals(s[1..], snippet)
  }

  /** Some position of `s` starts a long base 64 literal. */
  predicate HasLiteral(s: string) {
    exists i :: 0 <= i < |s| && LiteralMatch(s[i..]).Some?
  }

  /**
   * The substitution changes the text exactly when the text holds a long
   * base 64 literal; otherwise it leaves it as it is.
   */
  lemma {:induction false} ReplaceChangesIffLiteral(s: string, snippet: string)
    requires |snippet| > 0 && snippet[0] != '"'
    ensures ReplaceLiterals(s, snippet) != s <==> HasLiteral(s)
    decreases |s|
  {
    if |s| > 0 {
      if LiteralMatch(s).Some? {
        assert s[0..] == s;
        assert ReplaceLiterals(s, snippet)[0] == snippet[0];
      } else {
        ReplaceChangesIffLiteral(s[1..], snippet);
        HasLiteralAfterFirst(s);
        assert ReplaceLiterals(s, snippet) == [s[0]] + ReplaceLiterals(s[1..], snippet);
        assert s == [s[0]] + s[1..];
      }
    }
  }

  /** Without a literal at its start, a text holds one exactly when its tail does. */
  lemma HasLiteralAfterFirst(s: string)
    requires |s| > 0 && LiteralMatch(s).None?
    ensures HasLiteral(s) <==> HasLiteral(s[1..])
  {
    if HasLiteral(s) {
      var i :| 0 <= i < |s| && LiteralMatch(s[i..]).Some?;
      assert i != 0;
      assert s[1..][i - 1..] == s[i..];
    }
    if HasLiteral(s[1..]) {
      var i :| 0 <= i < |s[1..]| && LiteralMatch(s[1..][i..]).Some?;
      assert s[i + 1..] == s[1..][i..];
    }
  }

  /**
   * A quoted literal of at least 50 encoded characters and up to three
   * `=` is replaced whole by the snippet.
   */
  lemma LiteralReplaced(body: string, pads: string, snippet: string)
    requires |body| >= 50 && forall i :: 0 <= i < |body| ==> IsEncodedChar(body[i])
    requires |pads| <= 3 && forall i :: 0 <= i < |pads| ==> pads[i] == '='
    ensures ReplaceLiterals("\"" + body + pads + "\"", snippet) == snippet
  {
    var s := "\"" + body + pads + "\"";
    assert s[1..] == body + pads + "\"";
    assert EncodedRun(body + pads + "\"") == |body| by {
      EncodedRunOf(body, pads + "\"");
      assert body + pads + "\"" == body + (pads + "\"");
    }
    assert s[1 + |body|..] == pads + "\"";
    PadRunOf(pads, "\"");
    assert s[2 + |body| + |pads|..] == "";
  }

  lemma {:induction false} EncodedRunOf(body: string, rest: string)
    requires forall i :: 0 <= i < |body| ==> IsEncodedChar(body[i])
    requires |rest| > 0 && !IsEncodedChar(rest[0])
    ensures EncodedRun(body + rest) == |body|
    decreases |body|
  {
    if |body| > 0 {
      assert (body + rest)[1..] == body[1..] + rest;
      EncodedRunOf(body[1..], rest);
    }
  }

  lemma {:induction false} PadRunOf(pads: string, rest: string)
    requires forall i :: 0 <= i < |pads| ==> pads[i] == '='
    requires |rest| > 0 && rest[0] != '='
    ensures PadRun(pads + rest) == |pads|
    decreases |pads|
  {
    if |pads| > 0 {
      assert (pads + rest)[1..] == pads[1..] + rest;
      PadRunOf(pads[1..], rest);
    }
  }

  // ---------------------------------------------------------------------
  // getPlaygroundSnippets

  /** The provider, `FILE_SYSTEM` when none is given. */
  function ProviderOrDefault(p: Option<FileDataProvider>): (r: FileDataProvider)
    ensures p.None? ==> r == FileSystem
    ensures p.Some? ==> r == p.value
  {
    if p.Some? then p.value else FileSystem
  }

  /** The input code and whether it uses the file provider, from the stringified example input. */
  function SnippetInput(stringifiedInput: string, provider: Option<FileDataProvider>): (string, bool) {
    var beautified := ReplaceLiterals(stringifiedInput, ProviderSnippet(ProviderOrDefault(provider)));
    (beautified, beautified != stringifiedInput)
  }

  /** The snippet uses the file provider exactly when the example input holds a long base 64 literal. */
  lemma UsesProviderIffLiteral(stringifiedInput: string, provider: Option<FileDataProvider>)
    ensures SnippetInput(stringifiedInput, provider).1 <==> HasLiteral(stringifiedInput)
    ensures !HasLiteral(stringifiedInput) ==> SnippetInput(stringifiedInput, provider).0 == stringifiedInput
  {
    ReplaceChangesIffLiteral(stringifiedInput, ProviderSnippet(ProviderOrDefault(provider)));
  }

  /** The function name comes from the task name, or from the task id when the name is missing or empty. */
  function TaskFunctionName(taskName: Option<string>, taskId: string): (r: string)
    ensures IsVarName(r)
  {
    ValidVarNameIsVarName(if taskName.Some? && taskName.value != "" then taskName.value else taskId);
    ValidVarName(if taskName.Some? && taskName.value != "" then taskName.value else taskId)
  }
}
