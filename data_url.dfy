/**
 * Base 64 `data:` URLs (section 3 of RFC 2397) and the extraction of their
 * payload, in the two variants of the repository: one takes the text after
 * the last `base64,` as it is, the other checks it as strict base 64.
 *
 * The gate is the pattern `^data:[^;]*;base64,[-A-Za-z0-9+/]+={0,3}$`.
 */
module DataUrl {
  import opened Wrappers
  import opened Strings
  import opened Base64
  import opened ZodValues

  /** The payload characters of the pattern: the alphabet of base 64 and `-`. */
  predicate IsPayloadChar(c: char) {
    IsAlphabetChar(c) || c == '-'
  }

  /** The number of `=` at the end of `p`. */
  function TrailingPad(p: string): (n: nat)
    ensures n <= |p|
    ensures forall i :: |p| - n <= i < |p| ==> p[i] == '='
    ensures n < |p| ==> p[|p| - 1 - n] != '='
    decreases |p|
  {
    if |p| > 0 && p[|p| - 1] == '=' then TrailingPad(p[..|p| - 1]) + 1 else 0
  }

  /** `[-A-Za-z0-9+/]+={0,3}`: a non-empty body of payload characters, then at most three `=`. */
  predicate PayloadPattern(p: string) {
    var n := TrailingPad(p);
    n <= 3 && n < |p| && forall i :: 0 <= i < |p| - n ==> IsPayloadChar(p[i])
  }

  function Pads(n: nat): (s: string)
    ensures |s| == n && forall i :: 0 <= i < n ==> s[i] == '='
  {
    if n == 0 then "" else Pads(n - 1) + "="
  }

  /** Every string of the payload pattern's language satisfies `PayloadPattern`. */
  lemma {:induction false} PayloadPatternOf(body: string, n: nat)
    requires |body| > 0 && n <= 3
    requires forall i :: 0 <= i < |body| ==> IsPayloadChar(body[i])
    ensures PayloadPattern(body + Pads(n)) && TrailingPad(body + Pads(n)) == n
    decreases n
  {
    var p := body + Pads(n);
    if n == 0 {
      assert p == body;
      assert body[|body| - 1] != '=' by { assert IsPayloadChar(body[|body| - 1]); }
    } else {
      PayloadPatternOf(body, n - 1);
      assert p[..|p| - 1] == body + Pads(n - 1);
      forall i | 0 <= i < |p| - n ensures IsPayloadChar(p[i]) {
        assert p[i] == body[i];
      }
    }
  }

  /** The first index of `c` in `s`, or -1. */
  function FirstIndex(s: string, c: char): (r: int)
    ensures -1 <= r < |s|
    ensures r >= 0 ==> s[r] == c && c !in s[..r]
    ensures r < 0 ==> c !in s
    decreases |s|
  {
    if |s| == 0 then -1
    else if s[0] == c then 0
    else
      var r := FirstIndex(s[1..], c);
      if r < 0 then -1
      else
        assert s[..r + 1] == [s[0]] + s[1..][..r];
        r + 1
  }

  /** The first `c` of `a + [c] + b` is the one after `a` when `a` has none. */
  lemma {:induction false} FirstIndexAfter(a: string, c: char, b: string)
    requires c !in a
    ensures FirstIndex(a + [c] + b, c) == |a|
    decreases |a|
  {
    var s := a + [c] + b;
    if |a| == 0 {
      assert s[0] == c;
    } else {
      assert s[0] == a[0] && a[0] in a;
      assert s[1..] == a[1..] + [c] + b;
      assert forall x :: x in a[1..] ==> x in a;
      FirstIndexAfter(a[1..], c, b);
    }
  }

  /**
   * The payload of a string the pattern matches, or `None`. Since the
   * media type `[^;]*` has no `;`, it ends at the first `;`, which must
   * start `;base64,`.
   */
  function DataUrlPayload(s: string): Option<string> {
    if |s| < 5 || s[..5] != "data:" then None
    else
      var j := FirstIndex(s[5..], ';');
      if j < 0 then None
      else
        var t := s[5 + j..];
        if |t| >= 8 && t[..8] == ";base64," && PayloadPattern(t[8..]) then Some(t[8..]) else None
  }

  /**
   * A string that starts `data:` and whose media type ends at a `;` is
   * matched exactly when the rest is `base64,` and a payload.
   */
  lemma DataUrlPayloadAfter(m: string, rest: string)
    requires ';' !in m
    ensures DataUrlPayload("data:" + m + ";" + rest) ==
      if |rest| >= 7 && rest[..7] == "base64," && PayloadPattern(rest[7..]) then Some(rest[7..]) else None
  {
    var s := "data:" + m + ";" + rest;
    assert s[..5] == "data:";
    assert s[5..] == m + [';'] + rest;
    FirstIndexAfter(m, ';', rest);
    var t := s[5 + |m|..];
    assert t == ";" + rest;
    if |t| >= 8 {
      assert t[..8] == ";" + rest[..7];
      assert t[..8][1..] == rest[..7];
      assert (t[..8] == ";base64,") <==> (rest[..7] == "base64,");
      assert t[8..] == rest[7..];
    }
  }

  /** Every string of the pattern's language is matched, with its own payload. */
  lemma DataUrlComplete(m: string, p: string)
    requires ';' !in m && PayloadPattern(p)
    ensures DataUrlPayload("data:" + m + ";base64," + p) == Some(p)
  {
    var rest := "base64," + p;
    assert "data:" + m + ";base64," + p == "data:" + m + ";" + rest;
    assert rest[..7] == "base64," && rest[7..] == p;
    DataUrlPayloadAfter(m, rest);
  }

  /** The unchecked variant on a string of the pattern's language. */
  lemma DataUrlToBase64Of(m: string, p: string)
    requires ';' !in m && PayloadPattern(p)
    ensures DataUrlToBase64(VString("data:" + m + ";base64," + p)) == Ok(VString(p))
    ensures CheckedDataUrlToBase64(VString("data:" + m + ";base64," + p)) ==
      if IsStrictBase64(p) then Ok(VString(p)) else Err(Issue([], InvalidString("base64")))
  {
    var s := "data:" + m + ";base64," + p;
    DataUrlComplete(m, p);
    DataUrlToBase64Spec(VString(s));
    CheckedDataUrlToBase64Spec(VString(s));
    LastPieceIsPayload(s);
  }

  /** Only strings of the pattern's language are matched. */
  lemma DataUrlParts(s: string) returns (m: string)
    requires DataUrlPayload(s).Some?
    ensures ';' !in m && PayloadPattern(DataUrlPayload(s).value)
    ensures s == "data:" + m + ";base64," + DataUrlPayload(s).value
  {
    var j := FirstIndex(s[5..], ';');
    m := s[5..][..j];
    var t := s[5 + j..];
    SplitThree(s, 5, 5 + j, 5 + j + 8);
    assert s[5..5 + j] == m;
    assert s[5 + j..5 + j + 8] == t[..8] && s[5 + j + 8..] == t[8..];
  }

  /** A string is its pieces between three cut points. */
  lemma SplitThree(s: string, i: nat, j: nat, k: nat)
    requires i <= j <= k <= |s|
    ensures s == s[..i] + s[i..j] + s[j..k] + s[k..]
  {
  }

  /** The payload is non-empty, from `[-A-Za-z0-9+/]` and then at most three `=`. */
  lemma PayloadShape(s: string)
    requires DataUrlPayload(s).Some?
    ensures var p := DataUrlPayload(s).value;
      |p| > 0 && (forall i :: 0 <= i < |p| ==> IsPayloadChar(p[i]) || p[i] == '=') && TrailingPad(p) <= 3
  {
  }

  /** A payload holds no `,`. */
  lemma PayloadHasNoComma(p: string)
    requires PayloadPattern(p)
    ensures ',' !in p
  {
    forall i | 0 <= i < |p| ensures p[i] != ',' {
      assert IsPayloadChar(p[i]) || p[i] == '=';
    }
  }

  /** `base64,` ends in a `,` that occurs nowhere earlier in it. */
  lemma SeparatorEndsOnce(sep: string)
    requires sep == "base64,"
    ensures |sep| > 0 && sep[|sep| - 1] == ',' && ',' !in sep[..|sep| - 1]
  {
    assert sep[..|sep| - 1] == "base64";
  }

  /**
   * `url.split('base64,').pop()` on a matched string is its payload: the
   * text after the last `base64,` is the text after the first `;base64,`,
   * as a payload holds no `,`.
   */
  lemma LastPieceIsPayload(s: string)
    requires DataUrlPayload(s).Some?
    ensures LastPiece(s, "base64,") == DataUrlPayload(s).value
  {
    var p := DataUrlPayload(s).value;
    var m := DataUrlParts(s);
    PayloadHasNoComma(p);
    SeparatorEndsOnce("base64,");
    var pre := "data:" + m + ";";
    assert pre + "base64," == "data:" + m + ";base64,";
    LastPieceAfter(pre, "base64,", p);
  }

  /** `BASE64_DATA_URL_TO_BASE64` of the schema package: the pattern gate, then the last piece. */
  function DataUrlToBase64(v: Value): Parsed {
    if !v.VString? then Fail(InvalidType)
    else if DataUrlPayload(v.s).None? then Fail(InvalidString("regex"))
    else Ok(VString(LastPiece(v.s, "base64,")))
  }

  /** It accepts exactly the matched strings and yields their payload, re-checked or not. */
  lemma DataUrlToBase64Spec(v: Value)
    ensures DataUrlToBase64(v).Ok? <==> v.VString? && DataUrlPayload(v.s).Some?
    ensures DataUrlToBase64(v).Ok? ==> DataUrlToBase64(v).value == VString(DataUrlPayload(v.s).value)
  {
    if v.VString? && DataUrlPayload(v.s).Some? {
      LastPieceIsPayload(v.s);
    }
  }

  /**
   * The older variant: the last piece must also pass `z.string().base64()`,
   * whose failure the transform throws; the throw is modelled as the
   * failed result.
   */
  function CheckedDataUrlToBase64(v: Value): Parsed {
    if !v.VString? then Fail(InvalidType)
    else if DataUrlPayload(v.s).None? then Fail(InvalidString("regex"))
    else Base64String(VString(LastPiece(v.s, "base64,")))
  }

  /** It accepts exactly the matched strings whose payload is strict base 64, and yields that payload. */
  lemma CheckedDataUrlToBase64Spec(v: Value)
    ensures CheckedDataUrlToBase64(v).Ok? <==>
      v.VString? && DataUrlPayload(v.s).Some? && IsStrictBase64(DataUrlPayload(v.s).value)
    ensures CheckedDataUrlToBase64(v).Ok? ==> CheckedDataUrlToBase64(v).value == VString(DataUrlPayload(v.s).value)
  {
    if v.VString? && DataUrlPayload(v.s).Some? {
      LastPieceIsPayload(v.s);
    }
  }

  /** The checked variant agrees with the unchecked one wherever it succeeds, and its output is strict. */
  lemma CheckedPayloadIsStrict(v: Value)
    requires CheckedDataUrlToBase64(v).Ok?
    ensures CheckedDataUrlToBase64(v) == DataUrlToBase64(v)
    ensures IsStrictBase64(CheckedDataUrlToBase64(v).value.s)
  {
    CheckedDataUrlToBase64Spec(v);
    DataUrlToBase64Spec(v);
  }

  /** The pattern lets through a payload that is not strict base 64; only the checked variant rejects it. */
  lemma UncheckedPayloadAccepted(m: string, p: string)
    requires m == "text/plain" && p == "invalidbase64"
    ensures DataUrlToBase64(VString("data:" + m + ";base64," + p)) == Ok(VString(p))
    ensures CheckedDataUrlToBase64(VString("data:" + m + ";base64," + p)).Err?
  {
    InvalidPattern(p);
    DataUrlToBase64Of(m, p);
  }

  lemma InvalidPattern(p: string)
    requires p == "invalidbase64"
    ensures PayloadPattern(p) && !IsStrictBase64(p)
  {
    PayloadPatternOf(p, 0);
    assert p + Pads(0) == p;
    NotStrict();
  }

  /** `-` is a payload character of the pattern but not of the base 64 alphabet. */
  lemma DashPayload(m: string, p: string)
    requires m == "a" && p == "ab-c"
    ensures DataUrlToBase64(VString("data:" + m + ";base64," + p)) == Ok(VString(p))
    ensures !IsStrictBase64(p)
  {
    DashPattern(p);
    DataUrlToBase64Of(m, p);
  }

  lemma DashPattern(p: string)
    requires p == "ab-c"
    ensures PayloadPattern(p) && !IsStrictBase64(p)
  {
    PayloadPatternOf(p, 0);
    assert p + Pads(0) == p;
    assert !FinalQuantum(p);
  }

  lemma TestPayload()
    ensures PayloadPattern("dGVzdA==") && IsStrictBase64("dGVzdA==")
  {
    PayloadPatternOf("dGVzdA", 2);
    assert "dGVzdA" + Pads(2) == "dGVzdA==";
    EncodeTest();
  }

  /** The fixtures of both variants: a base 64 data URL. */
  lemma DataUrlFixture(m: string, p: string)
    requires m == "text/plain" && p == "dGVzdA=="
    ensures DataUrlToBase64(VString("data:" + m + ";base64," + p)) == Ok(VString(p))
    ensures CheckedDataUrlToBase64(VString("data:" + m + ";base64," + p)) == Ok(VString(p))
  {
    TestPayload();
    DataUrlToBase64Of(m, p);
  }

  /** A data URL that is not base 64, and a string that is no data URL, fail in both variants. */
  lemma NotDataUrlFixtures(m: string, rest: string, t: string)
    requires m == "text/plain" && rest == "charset=utf-8,some text" && t == "not a data URL"
    ensures DataUrlToBase64(VString("data:" + m + ";" + rest)).Err?
    ensures CheckedDataUrlToBase64(VString("data:" + m + ";" + rest)).Err?
    ensures DataUrlToBase64(VString(t)).Err? && CheckedDataUrlToBase64(VString(t)).Err?
  {
    DataUrlPayloadAfter(m, rest);
    assert rest[..7] == "charset";
    assert t[..5][0] == 'n' && "data:"[0] == 'd';
  }
}
