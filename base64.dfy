/**
 * Base 64 as in section 4 of RFC 4648: the 64-character alphabet, `=`
 * padding to a multiple of four characters, and the strict form zod's
 * `.base64()` accepts (every character from the alphabet, padding only
 * at the end of the last quantum).
 */
module Base64 {

  type Byte = x: int | 0 <= x < 256

  /** The characters of the alphabet of section 4 of RFC 4648. */
  predicate IsAlphabetChar(c: char) {
    ('A' <= c <= 'Z') || ('a' <= c <= 'z') || ('0' <= c <= '9') || c == '+' || c == '/'
  }

  /** The character encoding the 6-bit value `v`. */
  function Sextet(v: int): (c: char)
    requires 0 <= v < 64
    ensures IsAlphabetChar(c)
  {
    if v < 26 then ('A' as int + v) as char
    else if v < 52 then ('a' as int + (v - 26)) as char
    else if v < 62 then ('0' as int + (v - 52)) as char
    else if v == 62 then '+'
    else '/'
  }

  /** The 6-bit value a character of the alphabet encodes. */
  function SextetValue(c: char): (v: int)
    requires IsAlphabetChar(c)
    ensures 0 <= v < 64 && Sextet(v) == c
  {
    if 'A' <= c <= 'Z' then c as int - 'A' as int
    else if 'a' <= c <= 'z' then c as int - 'a' as int + 26
    else if '0' <= c <= '9' then c as int - '0' as int + 52
    else if c == '+' then 62
    else 63
  }

  lemma SextetRoundTrip(v: int)
    requires 0 <= v < 64
    ensures SextetValue(Sextet(v)) == v
  {
  }

  /** `buf.toString('base64')`: three bytes to four characters, the last quantum padded with `=`. */
  function Encode(b: seq<Byte>): (s: string)
    ensures |s| % 4 == 0
    ensures |b| > 0 ==> |s| >= 4
    decreases |b|
  {
    if |b| == 0 then ""
    else if |b| == 1 then [Sextet(b[0] / 4), Sextet(b[0] % 4 * 16), '=', '=']
    else if |b| == 2 then [Sextet(b[0] / 4), Sextet(b[0] % 4 * 16 + b[1] / 16), Sextet(b[1] % 16 * 4), '=']
    else Quantum(b[0], b[1], b[2]) + Encode(b[3..])
  }

  /** Four characters of the alphabet. */
  predicate FullQuantum(q: string) {
    |q| == 4 && IsAlphabetChar(q[0]) && IsAlphabetChar(q[1]) && IsAlphabetChar(q[2]) && IsAlphabetChar(q[3])
  }

  /** A last quantum: four characters, or three and `=`, or two and `==`. */
  predicate FinalQuantum(q: string) {
    && |q| == 4 && IsAlphabetChar(q[0]) && IsAlphabetChar(q[1])
    && ((IsAlphabetChar(q[2]) && (IsAlphabetChar(q[3]) || q[3] == '=')) || (q[2] == '=' && q[3] == '='))
  }

  /**
   * zod's `.base64()`: `^([0-9a-zA-Z+/]{4})*(([0-9a-zA-Z+/]{2}==)|([0-9a-zA-Z+/]{3}=))?$`,
   * quantum by quantum. The empty string passes.
   */
  predicate IsStrictBase64(s: string)
    decreases |s|
  {
    if |s| == 0 then true
    else if |s| == 4 then FinalQuantum(s)
    else |s| > 4 && FullQuantum(s[..4]) && IsStrictBase64(s[4..])
  }

  /**
   * The same check stated on the whole string: a multiple of four
   * characters, each from the alphabet except a `=` in the last place, or
   * `==` in the last two.
   */
  predicate StrictForm(s: string) {
    && |s| % 4 == 0
    && forall i :: 0 <= i < |s| ==>
         IsAlphabetChar(s[i]) || (s[i] == '=' && (i == |s| - 1 || (i == |s| - 2 && s[|s| - 1] == '=')))
  }

  lemma {:induction false} StrictFormEquivalent(s: string)
    ensures IsStrictBase64(s) <==> StrictForm(s)
    decreases |s|
  {
    if |s| > 4 {
      StrictFormEquivalent(s[4..]);
      if StrictForm(s) {
        forall i | 0 <= i < |s[4..]| ensures
          IsAlphabetChar(s[4..][i]) || (s[4..][i] == '=' && (i == |s[4..]| - 1 || (i == |s[4..]| - 2 && s[4..][|s[4..]| - 1] == '=')))
        {
          assert s[4..][i] == s[i + 4];
        }
        assert StrictForm(s[4..]);
        assert FullQuantum(s[..4]) by {
          assert IsAlphabetChar(s[0]) && IsAlphabetChar(s[1]) && IsAlphabetChar(s[2]) && IsAlphabetChar(s[3]);
        }
      }
      if IsStrictBase64(s) {
        assert StrictForm(s[4..]);
        forall i | 0 <= i < |s| ensures
          IsAlphabetChar(s[i]) || (s[i] == '=' && (i == |s| - 1 || (i == |s| - 2 && s[|s| - 1] == '=')))
        {
          if i < 4 {
            assert s[..4][i] == s[i];
          } else {
            assert s[4..][i - 4] == s[i];
          }
        }
        assert |s| % 4 == 0 by { assert |s| == |s[4..]| + 4; }
      }
    } else if 0 < |s| < 4 {
      assert !StrictForm(s);
    }
  }

  /** The three bytes of a quantum of four characters. */
  function DecodeFull(q: string): seq<Byte>
    requires FullQuantum(q)
  {
    var v0 := SextetValue(q[0]);
    var v1 := SextetValue(q[1]);
    var v2 := SextetValue(q[2]);
    var v3 := SextetValue(q[3]);
    [v0 * 4 + v1 / 16, v1 % 16 * 16 + v2 / 4, v2 % 4 * 64 + v3]
  }

  /** The bytes of a last quantum: one for `==`, two for `=`, three without padding. */
  function DecodeFinal(q: string): seq<Byte>
    requires FinalQuantum(q)
  {
    var v0 := SextetValue(q[0]);
    var v1 := SextetValue(q[1]);
    if q[2] == '=' then [v0 * 4 + v1 / 16]
    else
      var v2 := SextetValue(q[2]);
      if q[3] == '=' then [v0 * 4 + v1 / 16, v1 % 16 * 16 + v2 / 4]
      else DecodeFull(q)
  }

  /** `Buffer.from(s, 'base64')` on a strict string. */
  function Decode(s: string): (b: seq<Byte>)
    requires IsStrictBase64(s)
    decreases |s|
  {
    if |s| == 0 then []
    else if |s| == 4 then DecodeFinal(s)
    else DecodeFull(s[..4]) + Decode(s[4..])
  }

  // ---------------------------------------------------------------------
  // Round trip

  lemma SplitFirst(x: Byte)
    ensures x / 4 * 4 + (x % 4 * 16) / 16 == x
  {
  }

  lemma SplitFirstTwo(x: Byte, y: Byte)
    ensures 0 <= x % 4 * 16 + y / 16 < 64
    ensures x / 4 * 4 + (x % 4 * 16 + y / 16) / 16 == x
    ensures (x % 4 * 16 + y / 16) % 16 * 16 == y / 16 * 16
  {
    assert (x % 4 * 16 + y / 16) / 16 == x % 4;
    assert (x % 4 * 16 + y / 16) % 16 == y / 16;
  }

  lemma SplitSecond(y: Byte)
    ensures y / 16 * 16 + (y % 16 * 4) / 4 == y
  {
  }

  lemma SplitSecondThird(y: Byte, z: Byte)
    ensures 0 <= y % 16 * 4 + z / 64 < 64
    ensures y / 16 * 16 + (y % 16 * 4 + z / 64) / 4 == y
    ensures (y % 16 * 4 + z / 64) % 4 * 64 + z % 64 == z
  {
    assert (y % 16 * 4 + z / 64) / 4 == y % 16;
    assert (y % 16 * 4 + z / 64) % 4 == z / 64;
  }

  /** The quantum of three bytes. */
  function Quantum(x: Byte, y: Byte, z: Byte): (q: string)
    ensures FullQuantum(q) && FinalQuantum(q)
  {
    SplitFirstTwo(x, y);
    SplitSecondThird(y, z);
    [Sextet(x / 4), Sextet(x % 4 * 16 + y / 16), Sextet(y % 16 * 4 + z / 64), Sextet(z % 64)]
  }

  lemma QuantumDecodes(x: Byte, y: Byte, z: Byte)
    ensures var q := Quantum(x, y, z);
      && SextetValue(q[0]) * 4 + SextetValue(q[1]) / 16 == x
      && SextetValue(q[1]) % 16 * 16 + SextetValue(q[2]) / 4 == y
      && SextetValue(q[2]) % 4 * 64 + SextetValue(q[3]) == z
  {
    SplitFirstTwo(x, y);
    SplitSecondThird(y, z);
    SextetRoundTrip(x / 4);
    SextetRoundTrip(x % 4 * 16 + y / 16);
    SextetRoundTrip(y % 16 * 4 + z / 64);
    SextetRoundTrip(z % 64);
  }

  lemma EncodeOne(x: Byte)
    ensures IsStrictBase64(Encode([x])) && Decode(Encode([x])) == [x]
  {
    var v0, v1 := x / 4, x % 4 * 16;
    assert Encode([x]) == [Sextet(v0), Sextet(v1), '=', '='];
    DecodePadTwo(Encode([x]), v0, v1);
    SplitFirst(x);
  }

  /** Two characters and `==` decode to one byte. */
  lemma DecodePadTwo(q: string, v0: int, v1: int)
    requires 0 <= v0 < 64 && 0 <= v1 < 64 && q == [Sextet(v0), Sextet(v1), '=', '=']
    ensures IsStrictBase64(q) && Decode(q) == [v0 * 4 + v1 / 16]
  {
    SextetRoundTrip(v0);
    SextetRoundTrip(v1);
    assert FinalQuantum(q) && q[2] == '=';
  }

  lemma EncodeTwo(x: Byte, y: Byte)
    ensures IsStrictBase64(Encode([x, y])) && Decode(Encode([x, y])) == [x, y]
  {
    var v0, v1, v2 := TwoBytesSextets(x, y);
    DecodePadOne(Encode([x, y]), v0, v1, v2);
  }

  /** The three sextets of two bytes, and the bytes they give back. */
  lemma TwoBytesSextets(x: Byte, y: Byte) returns (v0: int, v1: int, v2: int)
    ensures 0 <= v0 < 64 && 0 <= v1 < 64 && 0 <= v2 < 64
    ensures Encode([x, y]) == [Sextet(v0), Sextet(v1), Sextet(v2), '=']
    ensures v0 * 4 + v1 / 16 == x && v1 % 16 * 16 + v2 / 4 == y
  {
    SplitFirstTwo(x, y);
    SplitSecond(y);
    v0, v1, v2 := x / 4, x % 4 * 16 + y / 16, y % 16 * 4;
    EncodeTwoBytes([x, y]);
  }

  /** Two bytes encode to their three sextets and `=`. */
  lemma EncodeTwoBytes(b: seq<Byte>)
    requires |b| == 2
    ensures Encode(b) == [Sextet(b[0] / 4), Sextet(b[0] % 4 * 16 + b[1] / 16), Sextet(b[1] % 16 * 4), '=']
  {
  }

  /** Three characters and `=` decode to two bytes. */
  lemma DecodePadOne(q: string, v0: int, v1: int, v2: int)
    requires 0 <= v0 < 64 && 0 <= v1 < 64 && 0 <= v2 < 64 && q == [Sextet(v0), Sextet(v1), Sextet(v2), '=']
    ensures IsStrictBase64(q) && Decode(q) == [v0 * 4 + v1 / 16, v1 % 16 * 16 + v2 / 4]
  {
    SextetRoundTrip(v0);
    SextetRoundTrip(v1);
    SextetRoundTrip(v2);
    assert FinalQuantum(q) && q[2] != '=' && q[3] == '=';
  }

  /** Every three bytes, or part of three at the end, take four characters. */
  lemma {:induction false} EncodeLength(b: seq<Byte>)
    ensures |Encode(b)| == 4 * ((|b| + 2) / 3)
    decreases |b|
  {
    if |b| >= 3 {
      EncodeLength(b[3..]);
      assert (|b| + 2) / 3 == (|b[3..]| + 2) / 3 + 1;
    }
  }

  /** The encoding is strict, and decoding it gives the bytes back. */
  lemma {:induction false} DecodeEncode(b: seq<Byte>)
    ensures IsStrictBase64(Encode(b))
    ensures Decode(Encode(b)) == b
    decreases |b|
  {
    if |b| >= 3 {
      DecodeEncode(b[3..]);
      EncodeMore(b);
    } else {
      EncodeShort(b);
    }
  }

  /** Fewer than three bytes make the last quantum alone. */
  lemma EncodeShort(b: seq<Byte>)
    requires |b| < 3
    ensures IsStrictBase64(Encode(b)) && Decode(Encode(b)) == b
  {
    if |b| == 1 {
      EncodeOne(b[0]);
      assert b == [b[0]];
    } else if |b| == 2 {
      EncodeTwo(b[0], b[1]);
      assert b == [b[0], b[1]];
    }
  }

  lemma QuantumRoundTrip(x: Byte, y: Byte, z: Byte)
    ensures DecodeFull(Quantum(x, y, z)) == [x, y, z]
    ensures DecodeFinal(Quantum(x, y, z)) == [x, y, z]
  {
    QuantumDecodes(x, y, z);
  }

  /** A full quantum in front of an encoding that decodes. */
  lemma EncodeMore(b: seq<Byte>)
    requires |b| >= 3 && IsStrictBase64(Encode(b[3..])) && Decode(Encode(b[3..])) == b[3..]
    ensures IsStrictBase64(Encode(b)) && Decode(Encode(b)) == b
  {
    var q := Quantum(b[0], b[1], b[2]);
    QuantumRoundTrip(b[0], b[1], b[2]);
    assert Encode(b) == q + Encode(b[3..]);
    if |b| == 3 {
      assert q + Encode(b[3..]) == q;
    } else {
      ConcatQuantum(q, Encode(b[3..]));
    }
    FirstThree(b);
  }

  lemma FirstThree(b: seq<Byte>)
    requires |b| >= 3
    ensures b == [b[0], b[1], b[2]] + b[3..]
  {
  }

  lemma ConcatQuantum(q: string, rest: string)
    requires FullQuantum(q) && IsStrictBase64(rest) && |rest| > 0
    ensures IsStrictBase64(q + rest) && Decode(q + rest) == DecodeFull(q) + Decode(rest)
  {
    assert (q + rest)[..4] == q && (q + rest)[4..] == rest;
  }

  // ---------------------------------------------------------------------
  // Examples

  /** The bytes of `'test'`. */
  function TestBytes(): seq<Byte> {
    [116, 101, 115, 116]
  }

  /** `Buffer.from('test').toString('base64')` is `'dGVzdA=='`, and decoding it gives `'test'` back. */
  lemma EncodeTest()
    ensures Encode(TestBytes()) == "dGVzdA=="
    ensures IsStrictBase64("dGVzdA==") && Decode("dGVzdA==") == TestBytes()
  {
    var b := TestBytes();
    assert b[..3] == [116, 101, 115] && b[3..] == [116];
    assert Encode(b) == Quantum(116, 101, 115) + Encode([116]);
    TestQuanta();
    assert Encode(b) == "dGVzdA==" by {
      assert "dGVz" + "dA==" == "dGVzdA==";
    }
    DecodeEncode(b);
  }

  lemma TestQuanta()
    ensures Quantum(116, 101, 115) == "dGVz" && Encode([116]) == "dA=="
  {
    assert 116 / 4 == 29 && 116 % 4 * 16 + 101 / 16 == 6 && 101 % 16 * 4 + 115 / 64 == 21 && 115 % 64 == 51;
    assert 116 % 4 * 16 == 0;
  }

  /** `'invalid'` (seven characters) is not strict base 64; neither is `'invalidbase64'`. */
  lemma NotStrict()
    ensures !IsStrictBase64("invalid")
    ensures !IsStrictBase64("invalidbase64")
    ensures !IsStrictBase64("base64encodeddata")
  {
    StrictFormEquivalent("invalid");
    StrictFormEquivalent("invalidbase64");
    StrictFormEquivalent("base64encodeddata");
  }
}
