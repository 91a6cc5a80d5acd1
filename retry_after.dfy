/**
 * The `Retry-After` header (section 10.2.3 of RFC 9110): a delay in
 * seconds or an HTTP date, turned into a wait in milliseconds. The clock
 * reading and the date parser are parameters.
 */
module RetryAfter {
  import opened Wrappers
  import opened Strings
  import opened Http

  /** A run of decimal digits with at least one digit: the `delay-seconds` form. */
  predicate IsDelaySeconds(t: string) {
    |t| > 0 && AllDigits(t)
  }

  /**
   * `Number(s)` where it is finite, for the forms the model covers:
   * surrounding whitespace, an optional sign and decimal digits; blank text
   * is `0`. Every other text counts as not a finite number.
   */
  function Seconds(s: string): Option<int> {
    var t := Trim(s);
    if t == "" then Some(0)
    else if IsDelaySeconds(t) then Some(DigitsValue(t))
    else if (t[0] == '-' || t[0] == '+') && IsDelaySeconds(t[1..]) then
      Some(if t[0] == '-' then -(DigitsValue(t[1..]) as int) else DigitsValue(t[1..]))
    else None
  }

  /**
   * `getRetryAfterDelay(header, defaultRetryAfter)` at clock reading
   * `now`, with `parseDate` standing for `Date.parse` (`None` for `NaN`).
   */
  function RetryAfterDelay(header: Nullish<string>, defaultRetryAfter: int, now: int, parseDate: string -> Option<int>): int {
    if !header.Present? || header.value == "" then defaultRetryAfter
    else
      match Seconds(header.value)
      case Some(n) => n * 1000
      case None =>
        match parseDate(header.value)
        case None => defaultRetryAfter
        case Some(retryAt) => if retryAt - now < 0 then defaultRetryAfter else retryAt - now
  }

  /**
   * The outcomes: no header, `null` or empty text gives the default; a
   * number of seconds gives that many milliseconds, negative ones
   * included; a date gives the time left until it, or the default once it
   * has passed; anything else gives the default.
   */
  lemma RetryAfterDelayCases(header: Nullish<string>, defaultRetryAfter: int, now: int, parseDate: string -> Option<int>)
    ensures !header.Present? || header.value == "" ==> RetryAfterDelay(header, defaultRetryAfter, now, parseDate) == defaultRetryAfter
    ensures header.Present? && header.value != "" && Seconds(header.value).Some? ==>
      RetryAfterDelay(header, defaultRetryAfter, now, parseDate) == Seconds(header.value).value * 1000
    ensures header.Present? && header.value != "" && Seconds(header.value).None? ==>
      RetryAfterDelay(header, defaultRetryAfter, now, parseDate) ==
        match parseDate(header.value)
        case None => defaultRetryAfter
        case Some(retryAt) => if retryAt < now then defaultRetryAfter else retryAt - now
  {
  }

  /**
   * Every delay is the default, a number of seconds times 1000, or the
   * non-negative time left until the parsed date; a delay that is not the
   * default and not a number of seconds is never negative.
   */
  lemma RetryAfterDelayOutcome(s: string, defaultRetryAfter: int, now: int, parseDate: string -> Option<int>)
    ensures var d := RetryAfterDelay(Present(s), defaultRetryAfter, now, parseDate);
      || d == defaultRetryAfter
      || (Seconds(s).Some? && d == Seconds(s).value * 1000)
      || (Seconds(s).None? && parseDate(s).Some? && d == parseDate(s).value - now && d >= 0)
  {
  }

  /** A digit run gives its value in seconds, as milliseconds. */
  lemma DelaySecondsHeader(s: string, defaultRetryAfter: int, now: int, parseDate: string -> Option<int>)
    requires IsDelaySeconds(s)
    ensures RetryAfterDelay(Present(s), defaultRetryAfter, now, parseDate) == DigitsValue(s) * 1000
  {
    SecondsOfDigits(s);
  }

  /** A digit run is its own number. */
  lemma SecondsOfDigits(s: string)
    requires IsDelaySeconds(s)
    ensures Seconds(s) == Some(DigitsValue(s))
  {
    TrimKeepsEnds(s);
  }

  /** `'60'` gives 60000 milliseconds. */
  lemma SixtySeconds(s: string, defaultRetryAfter: int, now: int, parseDate: string -> Option<int>)
    requires s == "60"
    ensures RetryAfterDelay(Present(s), defaultRetryAfter, now, parseDate) == 60000
  {
    assert s[..1] == "6" && "6"[..0] == "";
    DelaySecondsHeader(s, defaultRetryAfter, now, parseDate);
  }

  /** A negative number of seconds is passed through: `-5` gives `-5000`. */
  lemma NegativeSecondsNotClamped(s: string, d: string, defaultRetryAfter: int, now: int, parseDate: string -> Option<int>)
    requires IsDelaySeconds(d) && s == "-" + d
    ensures RetryAfterDelay(Present(s), defaultRetryAfter, now, parseDate) == -(DigitsValue(d) as int) * 1000
    ensures DigitsValue(d) > 0 ==> RetryAfterDelay(Present(s), defaultRetryAfter, now, parseDate) < 0
  {
    NegativeSeconds(s, d);
    assert s != "";
  }

  lemma NegativeSeconds(s: string, d: string)
    requires IsDelaySeconds(d) && s == "-" + d
    ensures Seconds(s) == Some(-(DigitsValue(d) as int))
  {
    assert s[0] == '-' && s[1..] == d;
    assert s[|s| - 1] == d[|d| - 1] && IsDigit(d[|d| - 1]);
    TrimKeepsEnds(s);
    assert !IsDelaySeconds(s) by {
      assert !IsDigit(s[0]);
    }
  }

  /** Text that is neither a number nor a date, such as `abc`, gives the default. */
  lemma UnparsableHeader(s: string, defaultRetryAfter: int, now: int, parseDate: string -> Option<int>)
    requires s == "abc" && parseDate(s).None?
    ensures RetryAfterDelay(Present(s), defaultRetryAfter, now, parseDate) == defaultRetryAfter
  {
    assert !IsDigit(s[0]) && s[0] != '-' && s[0] != '+';
    TrimNoWhitespace(s);
  }

  /** A date ahead of the clock gives the positive time left; a date behind it gives the default. */
  lemma DateHeader(s: string, defaultRetryAfter: int, now: int, parseDate: string -> Option<int>)
    requires Seconds(s).None? && parseDate(s).Some? && s != ""
    ensures parseDate(s).value > now ==> RetryAfterDelay(Present(s), defaultRetryAfter, now, parseDate) == parseDate(s).value - now > 0
    ensures parseDate(s).value < now ==> RetryAfterDelay(Present(s), defaultRetryAfter, now, parseDate) == defaultRetryAfter
  {
  }

  /** `getRetryAfterHeader(response)`: `undefined` without a response, else the header or `null`. */
  function RetryAfterHeader(response: Option<Response>): (h: Nullish<string>)
    ensures response.None? ==> h.Undefined?
    ensures response.Some? ==> h == HeaderGet(response.value, "Retry-After")
  {
    match response
    case None => Undefined
    case Some(r) => HeaderGet(r, "Retry-After")
  }

  /** The header is found whatever the case of the name it was sent under. */
  lemma RetryAfterHeaderLookup(r: Response)
    ensures RetryAfterHeader(Some(r)) ==
      if "retry-after" in r.headers then Present(r.headers["retry-after"]) else Null
  {
    RetryAfterName("Retry-After");
  }
}
