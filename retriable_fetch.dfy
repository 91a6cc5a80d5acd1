/**
 * `retriableFetch`: a fetch that retries on network errors and on status
 * 429 (too many requests), as long as the wait it would start still ends
 * before a deadline fixed when the call begins. The retry loop itself
 * belongs to the `fetch-retry` library; it is modelled by a driver that
 * counts the requests made, after the library's check of the `retries`
 * it is given.
 */
module RetriableFetch {
  import opened Wrappers
  import opened Http
  import opened RetryAfter

  /**
   * The retry fields of a request's init object, by name. A field may be
   * missing, or present with the value `undefined` or `null`.
   */
  type RetryInit = map<string, Nullish<int>>

  /** `{ ...init }[k]`: spreading a missing init gives an empty object. */
  function InitField(init: Option<RetryInit>, k: string): (v: Nullish<int>)
    ensures init.None? || k !in init.value ==> v.Undefined?
  {
    if init.Some? && k in init.value then init.value[k] else Undefined
  }

  /**
   * `retries` as handed to `fetch-retry`: a number, or the explicit `null`
   * a destructuring default lets through. Both snapshots replace
   * `undefined`.
   */
  type RetriesValue = r: Nullish<int> | !r.Undefined? witness Null

  /** The settings a call runs with. */
  datatype RetrySettings = RetrySettings(retries: RetriesValue, retryDelay: int, maxRetryDelay: int)

  /**
   * `fetch-retry` refuses, with an `ArgumentError` and before any request,
   * a `retries` that is not a non-negative integer; `null` is refused too.
   */
  predicate RetriesAccepted(r: RetriesValue) {
    r.Present? && r.value >= 0
  }

  /** The number `attempt >= retries` compares with: `null` counts as 0. */
  function Budget(r: RetriesValue): int {
    if r.Present? then r.value else 0
  }

  /** `x ??= d`: both `undefined` and `null` are replaced. */
  function OrDefault(x: Nullish<int>, d: int): int {
    if x.Present? then x.value else d
  }

  /** The settings of `retriableFetch.ts`, whose defaults also replace `null`. */
  function CoalescedSettings(init: Option<RetryInit>): RetrySettings {
    RetrySettings(
      Present(OrDefault(InitField(init, "retries"), 1)),
      OrDefault(InitField(init, "retryDelay"), 5000),
      OrDefault(InitField(init, "maxRetryDelay"), 60000))
  }

  /**
   * The `let` bindings of `retriableFetch.ts` and their `??=` updates.
   */
  method ResolveSettings(init: Option<RetryInit>) returns (s: RetrySettings)
    ensures s == CoalescedSettings(init)
    ensures s.retries == (if InitField(init, "retries").Present? then InitField(init, "retries") else Present(1))
  {
    var retries := InitField(init, "retries");
    var retryDelay := InitField(init, "retryDelay");
    var maxRetryDelay := InitField(init, "maxRetryDelay");
    if !retries.Present? {
      retries := Present(1);
    }
    if !retryDelay.Present? {
      retryDelay := Present(5000);
    }
    if !maxRetryDelay.Present? {
      maxRetryDelay := Present(60000);
    }
    s := RetrySettings(Present(retries.value), retryDelay.value, maxRetryDelay.value);
  }

  /** A destructuring default applies to `undefined` only; a `null` stays. */
  function KeepNull(x: Nullish<int>, d: int): RetriesValue {
    if x.Undefined? then Present(d) else x
  }

  /**
   * A destructuring default for a delay: a `null` that stays reads as `0`
   * where the SDK uses it, in `Date.now() + maxRetryDelay` and as the
   * default delay given to `getRetryAfterDelay`.
   */
  function DefaultIfUndefined(x: Nullish<int>, d: int): int {
    match x
    case Undefined => d
    case Null => 0
    case Present(n) => n
  }

  /** The settings of `fetch.ts`, whose defaults replace `undefined` only. */
  function DestructuredSettings(init: Option<RetryInit>): RetrySettings {
    RetrySettings(
      KeepNull(InitField(init, "retries"), 1),
      DefaultIfUndefined(InitField(init, "retryDelay"), 5000),
      DefaultIfUndefined(InitField(init, "maxRetryDelay"), 60000))
  }

  /** No retry field is an explicit `null`. */
  predicate NoNullField(init: Option<RetryInit>) {
    !InitField(init, "retries").Null? && !InitField(init, "retryDelay").Null? && !InitField(init, "maxRetryDelay").Null?
  }

  /**
   * The two snapshots resolve an init alike exactly when it has no
   * explicit `null`; without any field both give 1 retry, 5000 ms and
   * 60000 ms.
   */
  lemma SnapshotsAgreeWithoutNull(init: Option<RetryInit>)
    ensures CoalescedSettings(init) == DestructuredSettings(init) <==> NoNullField(init)
    ensures init.None? ==> CoalescedSettings(init) == RetrySettings(Present(1), 5000, 60000)
  {
  }

  /**
   * The `??=` snapshot hands on only numbers, so it is refused only for a
   * negative `retries`; the destructuring snapshot is refused for an
   * explicit `null` as well.
   */
  lemma SettingsAccepted(init: Option<RetryInit>)
    ensures RetriesAccepted(CoalescedSettings(init).retries) <==>
      !(InitField(init, "retries").Present? && InitField(init, "retries").value < 0)
    ensures RetriesAccepted(DestructuredSettings(init).retries) <==>
      (InitField(init, "retries").Undefined? || (InitField(init, "retries").Present? && InitField(init, "retries").value >= 0))
  {
  }

  /** `abortRetriesAt`, fixed once when the call starts at clock reading `start`. */
  function AbortRetriesAt(s: RetrySettings, start: int): int {
    start + s.maxRetryDelay
  }

  /** The `retryDelay` callback: the wait before the next attempt. */
  function RetryWait(s: RetrySettings, response: Option<Response>, now: int, parseDate: string -> Option<int>): int {
    RetryAfterDelay(RetryAfterHeader(response), s.retryDelay, now, parseDate)
  }

  /** The `retryOn` callback, at clock reading `now`. */
  function RetryOn(s: RetrySettings, abortRetriesAt: int, attempt: int, networkError: bool, response: Option<Response>,
                   now: int, parseDate: string -> Option<int>): bool
  {
    if attempt >= Budget(s.retries) then false
    else if networkError || (response.Some? && response.value.status == 429) then
      now + RetryWait(s, response, now, parseDate) < abortRetriesAt
    else false
  }

  /**
   * A retry happens only below the retry budget, only after a network
   * error or a 429, and only when the wait the `retryDelay` callback
   * reports ends strictly before the deadline; those three together are
   * enough.
   */
  lemma RetryOnConditions(s: RetrySettings, abortRetriesAt: int, attempt: int, networkError: bool, response: Option<Response>,
                          now: int, parseDate: string -> Option<int>)
    ensures attempt >= Budget(s.retries) ==> !RetryOn(s, abortRetriesAt, attempt, networkError, response, now, parseDate)
    ensures !networkError && (response.None? || response.value.status != 429) ==>
      !RetryOn(s, abortRetriesAt, attempt, networkError, response, now, parseDate)
    ensures RetryOn(s, abortRetriesAt, attempt, networkError, response, now, parseDate) <==>
      && attempt < Budget(s.retries)
      && (networkError || (response.Some? && response.value.status == 429))
      && now + RetryWait(s, response, now, parseDate) < abortRetriesAt
  {
  }

  /** What a request attempt gives: a network error or a response. */
  datatype Outcome = NetworkFailure | Received(response: Response)

  /** The outcome of attempt `i`; the last listed outcome repeats from then on. */
  function OutcomeAt(outcomes: seq<Outcome>, i: nat): Outcome
    requires |outcomes| > 0
  {
    if i < |outcomes| then outcomes[i] else outcomes[|outcomes| - 1]
  }

  function ResponseOf(o: Outcome): Option<Response> {
    if o.Received? then Some(o.response) else None
  }

  /** Whether the library retries after attempt `attempt` at clock reading `now`. */
  predicate RetriesAfter(s: RetrySettings, abortRetriesAt: int, outcomes: seq<Outcome>, attempt: nat, now: int,
                         parseDate: string -> Option<int>)
    requires |outcomes| > 0
  {
    var o := OutcomeAt(outcomes, attempt);
    RetryOn(s, abortRetriesAt, attempt, o.NetworkFailure?, ResponseOf(o), now, parseDate)
  }

  /** The clock reading once the wait after attempt `attempt` is over; a negative wait is no wait. */
  function NextNow(s: RetrySettings, outcomes: seq<Outcome>, attempt: nat, now: int, parseDate: string -> Option<int>): int
    requires |outcomes| > 0
  {
    var w := RetryWait(s, ResponseOf(OutcomeAt(outcomes, attempt)), now, parseDate);
    now + (if w < 0 then 0 else w)
  }

  /**
   * How many requests are made from attempt `attempt` on: none when the
   * library refuses `retries`, otherwise one, and more as long as
   * `retryOn` agrees. Requests take no time.
   */
  function Requests(s: RetrySettings, abortRetriesAt: int, outcomes: seq<Outcome>, attempt: nat, now: int,
                    parseDate: string -> Option<int>): (n: nat)
    requires |outcomes| > 0
    ensures n == 0 <==> !RetriesAccepted(s.retries)
    ensures RetriesAccepted(s.retries) && attempt < Budget(s.retries) ==> n <= Budget(s.retries) - attempt + 1
    ensures RetriesAccepted(s.retries) && attempt >= Budget(s.retries) ==> n == 1
    decreases Budget(s.retries) - attempt
  {
    if !RetriesAccepted(s.retries) then 0
    else if RetriesAfter(s, abortRetriesAt, outcomes, attempt, now, parseDate) then
      1 + Requests(s, abortRetriesAt, outcomes, attempt + 1, NextNow(s, outcomes, attempt, now, parseDate), parseDate)
    else 1
  }

  /** How a call ends: refused before any request, or after `calls` requests that ended in `last`. */
  datatype Call = ArgumentError | Completed(calls: nat, last: Outcome)

  /**
   * The attempt loop of `fetch-retry` as `retriableFetch` configures it,
   * for a call starting at clock reading `start`: the check of `retries`,
   * then the number of requests made and the outcome handed back.
   */
  method FetchWithRetry(s: RetrySettings, start: int, outcomes: seq<Outcome>, parseDate: string -> Option<int>)
    returns (r: Call)
    requires |outcomes| > 0
    ensures r.ArgumentError? <==> !RetriesAccepted(s.retries)
    ensures Requests(s, AbortRetriesAt(s, start), outcomes, 0, start, parseDate) == (if r.Completed? then r.calls else 0)
    ensures r.Completed? ==> r.calls <= Budget(s.retries) + 1 && r.last == OutcomeAt(outcomes, r.calls - 1)
  {
    if !RetriesAccepted(s.retries) {
      return ArgumentError;
    }
    var abortRetriesAt := AbortRetriesAt(s, start);
    var attempt: nat := 0;
    var now := start;
    while RetriesAfter(s, abortRetriesAt, outcomes, attempt, now, parseDate)
      invariant Requests(s, abortRetriesAt, outcomes, 0, start, parseDate) ==
        attempt + Requests(s, abortRetriesAt, outcomes, attempt, now, parseDate)
      invariant attempt <= Budget(s.retries)
      decreases Budget(s.retries) - attempt
    {
      now := NextNow(s, outcomes, attempt, now, parseDate);
      attempt := attempt + 1;
    }
    r := Completed(attempt + 1, OutcomeAt(outcomes, attempt));
  }

  /** An explicit `null` for `retries` in the destructuring snapshot: the call is refused, with no request. */
  lemma NullRetriesRefused(init: Option<RetryInit>, start: int, outcomes: seq<Outcome>, parseDate: string -> Option<int>)
    requires |outcomes| > 0 && InitField(init, "retries").Null?
    ensures var s := DestructuredSettings(init);
      Requests(s, AbortRetriesAt(s, start), outcomes, 0, start, parseDate) == 0
    ensures CoalescedSettings(init).retries == Present(1)
  {
    SettingsAccepted(init);
  }

  /** A first outcome that is neither a network error nor a 429, such as a 500, is returned after one request,
   * unless `retries` is refused. */
  lemma NotRetriable(s: RetrySettings, start: int, outcomes: seq<Outcome>, parseDate: string -> Option<int>)
    requires |outcomes| > 0 && outcomes[0].Received? && outcomes[0].response.status != 429
    ensures Requests(s, AbortRetriesAt(s, start), outcomes, 0, start, parseDate) == (if RetriesAccepted(s.retries) then 1 else 0)
  {
  }

  /** A first wait that reaches past the deadline means no retry at all. */
  lemma WaitPastDeadline(s: RetrySettings, start: int, outcomes: seq<Outcome>, parseDate: string -> Option<int>)
    requires |outcomes| > 0
    requires RetryWait(s, ResponseOf(outcomes[0]), start, parseDate) >= s.maxRetryDelay
    ensures Requests(s, AbortRetriesAt(s, start), outcomes, 0, start, parseDate) == (if RetriesAccepted(s.retries) then 1 else 0)
  {
  }

  /** A throttled response without `Retry-After` header. */
  function Throttled(url: string): Response {
    Response(url, 429, map[])
  }

  /**
   * A persistent 429 with `retries: 3` gives four requests: the first and
   * three retries, 5000 ms apart by default, well before the 60000 ms
   * deadline.
   */
  lemma PersistentThrottling(url: string, start: int, parseDate: string -> Option<int>)
    ensures var s := DestructuredSettings(Some(map["retries" := Present(3)]));
      Requests(s, AbortRetriesAt(s, start), [Received(Throttled(url))], 0, start, parseDate) == 4
  {
    var s := DestructuredSettings(Some(map["retries" := Present(3)]));
    assert s == RetrySettings(Present(3), 5000, 60000);
    var o := [Received(Throttled(url))];
    var a := AbortRetriesAt(s, start);
    assert RetryAfterHeader(Some(Throttled(url))) == Null;
    assert NextNow(s, o, 0, start, parseDate) == start + 5000;
    assert NextNow(s, o, 1, start + 5000, parseDate) == start + 10000;
    assert NextNow(s, o, 2, start + 10000, parseDate) == start + 15000;
    assert Requests(s, a, o, 3, start + 15000, parseDate) == 1;
  }

  /** A network error and then a response: two requests when a retry is allowed. */
  lemma NetworkErrorThenSuccess(r: Response, start: int, parseDate: string -> Option<int>)
    requires r.status == 200
    ensures var s := DestructuredSettings(Some(map["retries" := Present(2)]));
      Requests(s, AbortRetriesAt(s, start), [NetworkFailure, Received(r)], 0, start, parseDate) == 2
  {
    var s := DestructuredSettings(Some(map["retries" := Present(2)]));
    assert RetryAfterHeader(None) == Undefined;
    assert NextNow(s, [NetworkFailure, Received(r)], 0, start, parseDate) == start + 5000;
  }

  /** One 429 and then a response: two requests. */
  lemma ThrottledThenSuccess(url: string, r: Response, start: int, parseDate: string -> Option<int>)
    requires r.status == 200
    ensures var s := DestructuredSettings(Some(map["retries" := Present(2)]));
      Requests(s, AbortRetriesAt(s, start), [Received(Throttled(url)), Received(r)], 0, start, parseDate) == 2
  {
    var s := DestructuredSettings(Some(map["retries" := Present(2)]));
    assert RetryAfterHeader(Some(Throttled(url))) == Null;
    assert NextNow(s, [Received(Throttled(url)), Received(r)], 0, start, parseDate) == start + 5000;
  }

  /**
   * A wait longer than `maxRetryDelay`, here a `retryDelay` of 100000 ms
   * against a deadline 5000 ms away, stops the retries at once.
   */
  lemma LongDelayNoRetry(url: string, start: int, parseDate: string -> Option<int>)
    ensures var s := DestructuredSettings(Some(map["retryDelay" := Present(100000), "maxRetryDelay" := Present(5000)]));
      Requests(s, AbortRetriesAt(s, start), [Received(Throttled(url))], 0, start, parseDate) == 1
  {
    var s := DestructuredSettings(Some(map["retryDelay" := Present(100000), "maxRetryDelay" := Present(5000)]));
    assert RetryAfterHeader(Some(Throttled(url))) == Null;
    WaitPastDeadline(s, start, [Received(Throttled(url))], parseDate);
  }

  /** The wait is the configured `retryDelay` when the response gives no `Retry-After`. */
  lemma WaitIsRetryDelay(s: RetrySettings, response: Option<Response>, now: int, parseDate: string -> Option<int>)
    requires response.None? || "retry-after" !in response.value.headers
    ensures RetryWait(s, response, now, parseDate) == s.retryDelay
  {
    if response.Some? {
      RetryAfterHeaderLookup(response.value);
    }
  }

  /** `getRetriableFetch(retryInit)` called with `init`: `{ ...init, ...retryInit }`. */
  function MergedInit(retryInit: RetryInit, init: Option<RetryInit>): RetryInit {
    (if init.Some? then init.value else map[]) + retryInit
  }

  /**
   * The retry options given to `getRetriableFetch` win over the per-call
   * fields of the same name, even when they hold `undefined`; the other
   * per-call fields are kept.
   */
  lemma MergedInitFields(retryInit: RetryInit, init: Option<RetryInit>, k: string)
    ensures k in retryInit ==> InitField(Some(MergedInit(retryInit, init)), k) == retryInit[k]
    ensures k !in retryInit ==> InitField(Some(MergedInit(retryInit, init)), k) == InitField(init, k)
  {
  }
}
