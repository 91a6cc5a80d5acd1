/**
 * `WorkflowAIError`: the error a failed request raises, built once from
 * the response and the extracted error record.
 */
module ApiError {
  import opened JsValues
  import opened Http
  import opened ErrorResponse

  /** The fields of a `WorkflowAIError`; `detail` and `errorCode` may be `undefined`. */
  datatype WorkflowAIError = WorkflowAIError(
    message: string,
    detail: Json,
    url: string,
    status: int,
    response: Response,
    errorCode: Json)

  /** `detail?.error?.code`. */
  function ErrorCode(detail: Json): Json {
    Member(Member(detail, "error"), "code")
  }

  /** `detail?.error?.details`. */
  function ErrorDetails(detail: Json): Json {
    Member(Member(detail, "error"), "details")
  }

  /** The text after the URL: the code, else the details, else `unknown error`. */
  function Reason(detail: Json): string {
    TemplateString(Coalesce(ErrorCode(detail), Coalesce(ErrorDetails(detail), JString("unknown error"))))
  }

  /** `new WorkflowAIError(response, detail)`. */
  function NewWorkflowAIError(response: Response, detail: Json): (e: WorkflowAIError)
    ensures e.detail == detail && e.response == response
    ensures e.url == response.url && e.status == response.status
  {
    WorkflowAIError(
      "Failed to request " + response.url + ": " + Reason(detail),
      detail,
      response.url,
      response.status,
      response,
      ErrorCode(detail))
  }

  /**
   * The message names the URL and then the first of `error.code` and
   * `error.details` that is neither `null` nor `undefined`, falling back
   * to `unknown error`; `errorCode` is the code as given, `undefined` when
   * the detail has none.
   */
  lemma MessageFormat(response: Response, detail: Json)
    ensures var e := NewWorkflowAIError(response, detail);
      && e.message == "Failed to request " + response.url + ": " +
        (if !IsNullish(ErrorCode(detail)) then TemplateString(ErrorCode(detail))
         else if !IsNullish(ErrorDetails(detail)) then TemplateString(ErrorDetails(detail))
         else "unknown error")
      && e.errorCode == ErrorCode(detail)
      && (!(detail.JObject? && "error" in detail.fields) ==> e.errorCode == JUndefined)
  {
  }

  /** A code wins over details: `invalid_generation` ends the message. */
  lemma CodeBeforeDetails(response: Response, detail: Json, c: string)
    requires detail.JObject? && "error" in detail.fields
    requires detail.fields["error"].JObject? && "code" in detail.fields["error"].fields
    requires detail.fields["error"].fields["code"] == JString(c)
    ensures NewWorkflowAIError(response, detail).message == "Failed to request " + response.url + ": " + c
    ensures NewWorkflowAIError(response, detail).errorCode == JString(c)
  {
    MessageFormat(response, detail);
  }

  /** An error built from `extractError` of a body without content reads `internal_error`. */
  lemma DefaultDetailMessage(response: Response, body: Json)
    requires !Informative(body)
    ensures NewWorkflowAIError(response, ExtractError(body)).message ==
      "Failed to request " + response.url + ": internal_error"
    ensures NewWorkflowAIError(response, ExtractError(body)).errorCode == JString("internal_error")
  {
    assert ExtractError(body) == DefaultError();
    DefaultErrorCode();
    assert Reason(DefaultError()) == "internal_error";
    var prefix := "Failed to request " + response.url;
    assert prefix + ": " + "internal_error" == prefix + ": internal_error";
  }

  /** The default record's code is `internal_error`. */
  lemma DefaultErrorCode()
    ensures ErrorCode(DefaultError()) == JString("internal_error")
  {
    var e := DefaultError().fields["error"];
    assert Member(DefaultError(), "error") == e;
    assert "code" in e.fields && e.fields["code"] == JString("internal_error");
  }

  /**
   * An empty detail record, or the record `extractError` makes of a body
   * that names neither `error` nor `detail`, gives `unknown error` and no
   * code; the detail is kept as the empty record.
   */
  lemma EmptyDetail(response: Response, body: Json)
    requires Informative(body) && !HasKey(body, "error") && !HasKey(body, "detail")
    ensures NewWorkflowAIError(response, ExtractError(body)).message ==
      "Failed to request " + response.url + ": unknown error"
    ensures NewWorkflowAIError(response, ExtractError(body)).errorCode == JUndefined
    ensures NewWorkflowAIError(response, ExtractError(body)).detail == JObject(map[])
  {
    ExtractErrorCases(body);
    MessageFormat(response, ExtractError(body));
  }
}
