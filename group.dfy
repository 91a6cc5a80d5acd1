/**
 * Group references: how the client names the version of a task to run,
 * and how a reference by environment is rewritten into the alias form
 * the API expects.
 */
module Group {
  import opened JsValues

  /** `isGroupReference(group)`: `!!group`. */
  predicate IsGroupReference(group: Json) {
    Truthy(group)
  }

  /**
   * `sanitizeGroupReference(group)`, for a reference record, `null` or
   * `undefined`, as the parameter's type allows.
   */
  function SanitizeGroupReference(group: Json): Json
    requires IsNullish(group) || group.JObject?
  {
    if !IsGroupReference(group) then JNull
    else if "environment" in group.fields then
      JObject(map["alias" := JString("environment=" + TemplateString(group.fields["environment"]))])
    else group
  }

  /**
   * A missing reference gives `null`; a reference by environment becomes
   * exactly the alias `environment=<name>`; any other reference is passed
   * on as it is.
   */
  lemma SanitizeCases(group: Json)
    requires IsNullish(group) || group.JObject?
    ensures IsNullish(group) ==> SanitizeGroupReference(group) == JNull
    ensures group.JObject? && "environment" in group.fields ==>
      var r := SanitizeGroupReference(group);
      r.JObject? && r.fields.Keys == {"alias"} && r.fields["alias"] == JString("environment=" + TemplateString(group.fields["environment"]))
    ensures group.JObject? && "environment" !in group.fields ==> SanitizeGroupReference(group) == group
  {
  }

  /** Every record is a reference and neither `null` nor `undefined` is. */
  lemma IsGroupReferenceIffRecord(group: Json)
    requires IsNullish(group) || group.JObject?
    ensures IsGroupReference(group) <==> group.JObject?
  {
  }

  /**
   * What comes out is `null` or a record without `environment`, and
   * sanitizing it again changes nothing.
   */
  lemma SanitizeIdempotent(group: Json)
    requires IsNullish(group) || group.JObject?
    ensures var r := SanitizeGroupReference(group);
      && (r.JNull? || (r.JObject? && "environment" !in r.fields))
      && SanitizeGroupReference(r) == r
  {
    var r := SanitizeGroupReference(group);
    if group.JObject? && "environment" in group.fields {
      assert "environment" !in r.fields;
    }
  }

  /** `{environment: 'production'}` becomes `{alias: 'environment=production'}`. */
  lemma ProductionEnvironment(env: string)
    requires env == "production"
    ensures SanitizeGroupReference(JObject(map["environment" := JString(env)])) ==
      JObject(map["alias" := JString("environment=production")])
  {
    assert TemplateString(JString(env)) == env;
    assert "environment=" + env == "environment=production";
  }
}
