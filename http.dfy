/** The parts of a fetch `Response` the client reads. */
module Http {
  import opened Wrappers
  import opened Strings

  /**
   * A response: the URL it came from, its status code and its headers,
   * stored under their lower-case names (header names are
   * case-insensitive).
   */
  datatype Response = Response(url: string, status: int, headers: map<string, string>)

  /** `s.toLowerCase()` for ASCII text. */
  function LowerAscii(s: string): (r: string)
    ensures |r| == |s|
    ensures forall i :: 0 <= i < |s| ==> r[i] == LowerChar(s[i])
  {
    seq(|s|, i requires 0 <= i < |s| => LowerChar(s[i]))
  }

  /** `Retry-After` is looked up under `retry-after`. */
  lemma RetryAfterName(name: string)
    requires name == "Retry-After"
    ensures LowerAscii(name) == "retry-after"
  {
    assert LowerChar('R') == 'r' && LowerChar('A') == 'a';
  }

  /** `response.headers.get(name)`: the value, or `null` when the header is absent. */
  function HeaderGet(r: Response, name: string): (h: Nullish<string>)
    ensures h.Present? <==> LowerAscii(name) in r.headers
    ensures h.Present? ==> h.value == r.headers[LowerAscii(name)]
    ensures !h.Present? ==> h.Null?
  {
    if LowerAscii(name) in r.headers then Present(r.headers[LowerAscii(name)]) else Null
  }
}
