/**
 * `extractError`: how a parsed error response body becomes the client's
 * `WorkflowAIApiError` record. The two snapshots of the function are the
 * same rule and are modelled once.
 */
module ErrorResponse {
  import opened JsValues

  /** The record used when the body says nothing: an internal error with status 500. */
  function DefaultError(): Json {
    JObject(map["error" := JObject(map[
      "message" := JString("Default error message"),
      "status_code" := JNumber(500),
      "code" := JString("internal_error")])])
  }

  /** `Object.keys(v).length` for an object or an array. */
  function OwnKeyCount(v: Json): nat
    requires IsObject(v)
  {
    if v.JArray? then |v.items| else |v.fields|
  }

  /** `k in v` for the two record keys the function asks about. */
  predicate HasKey(v: Json, k: string) {
    v.JObject? && k in v.fields
  }

  /** A body the function passes on or rewraps: an object with at least one own key. */
  predicate Informative(v: Json) {
    IsObject(v) && OwnKeyCount(v) > 0
  }

  /** `extractError(respJson)`. */
  function ExtractError(v: Json): (r: Json)
    ensures r.JObject?
  {
    if !Informative(v) then DefaultError()
    else if HasKey(v, "error") then v
    else if HasKey(v, "detail") then JObject(map["error" := JObject(map["details" := v.fields["detail"]])])
    else JObject(map[])
  }

  /**
   * The four outcomes: a primitive, `null` or a key-less value gives the
   * default record; a body with `error` is passed on as it is, whatever
   * else it holds; a body with only `detail` has it wrapped as
   * `error.details`; any other object gives the empty record.
   */
  lemma ExtractErrorCases(v: Json)
    ensures !IsObject(v) || OwnKeyCount(v) == 0 ==> ExtractError(v) == DefaultError()
    ensures Informative(v) && HasKey(v, "error") ==> ExtractError(v) == v
    ensures Informative(v) && !HasKey(v, "error") && HasKey(v, "detail") ==>
      ExtractError(v).fields.Keys == {"error"} &&
      Member(Member(ExtractError(v), "error"), "details") == v.fields["detail"]
    ensures Informative(v) && !HasKey(v, "error") && !HasKey(v, "detail") ==> ExtractError(v).fields == map[]
  {
  }

  /**
   * The result carries an `error` member exactly when the body was not an
   * informative object that names neither `error` nor `detail`.
   */
  lemma ExtractErrorHasError(v: Json)
    ensures HasKey(ExtractError(v), "error") <==>
      !Informative(v) || HasKey(v, "error") || HasKey(v, "detail")
  {
  }

  /**
   * Extracting again changes nothing when the result has an `error`
   * member; the empty record, in contrast, turns into the default on a
   * second pass.
   */
  lemma ExtractErrorStable(v: Json)
    ensures HasKey(ExtractError(v), "error") ==> ExtractError(ExtractError(v)) == ExtractError(v)
    ensures !HasKey(ExtractError(v), "error") ==> ExtractError(ExtractError(v)) == DefaultError()
  {
    ExtractErrorHasError(v);
    assert HasKey(DefaultError(), "error");
  }

  /** `extractError({message: 'Error details'})` is the empty record. */
  lemma MessageOnlyBody()
    ensures ExtractError(JObject(map["message" := JString("Error details")])) == JObject(map[])
  {
    var v := JObject(map["message" := JString("Error details")]);
    assert OwnKeyCount(v) == 1;
  }
}
