/**
 * The File atom: a record of an optional `name`, a `content_type` from a
 * fixed list and the `data`, which the input side normalises to base 64
 * text and the output side decodes to bytes.
 */
module FileAtom {
  import opened Wrappers
  import opened Base64
  import opened ZodValues
  import opened BufferAtoms
  import opened DataUrl

  /** `FILE_CONTENT_TYPE`. */
  function FileContentTypes(): seq<string> {
    [ "image/png", "image/jpg", "image/jpeg", "image/webp", "image/tiff", "image/gif",
      "application/pdf", "audio/mpeg", "audio/wav", "audio/ogg", "audio/flac", "audio/aac" ]
  }

  /**
   * `resolved(schema)` on a value that is not a promise: the union of the
   * schema and its promise form succeeds exactly when the schema does.
   */
  function Resolved(p: Parsed): (r: Parsed)
    ensures r.Ok? <==> p.Ok?
    ensures r.Ok? ==> r == p
  {
    Union2(p, Fail(InvalidType))
  }

  /**
   * `FILE_INPUT.data`: the first of strict base 64 text (kept), a base 64
   * data URL (its payload) and a buffer (its base 64 text).
   */
  function InputData(v: Value): Parsed {
    Resolved(Union2(Base64String(v), Union2(DataUrlToBase64(v), BufferToBase64(v))))
  }

  /** What the input side makes of `data`, by kind of value. */
  lemma InputDataSpec(v: Value)
    ensures InputData(v).Ok? <==>
      (v.VString? && (IsStrictBase64(v.s) || DataUrlPayload(v.s).Some?)) || v.VBuffer? || v.VArrayBuffer?
    ensures v.VString? && IsStrictBase64(v.s) ==> InputData(v) == Ok(v)
    ensures v.VString? && !IsStrictBase64(v.s) && DataUrlPayload(v.s).Some? ==>
      InputData(v) == Ok(VString(DataUrlPayload(v.s).value))
    ensures v.VBuffer? || v.VArrayBuffer? ==> InputData(v) == Ok(VString(Encode(v.bytes)))
  {
    DataUrlToBase64Spec(v);
  }

  /** `FILE_INPUT`. */
  function FileInput(v: Value): Parsed {
    if v.VObject? then ObjectOf(v.fields, MediaShape(v.fields, FileContentTypes(), InputData(Field(v.fields, "data"))))
    else Fail(InvalidType)
  }

  /** `FILE_OUTPUT`. */
  function FileOutput(v: Value): Parsed {
    if v.VObject? then ObjectOf(v.fields, MediaShape(v.fields, FileContentTypes(), Base64ToBuffer(Field(v.fields, "data"))))
    else Fail(InvalidType)
  }

  /**
   * `FILE_INPUT` accepts a record exactly when `name` is absent or a
   * string, `content_type` is one of the twelve types and `data` is
   * accepted; the result keeps `name` only when the input had it, holds
   * the normalised `data`, and nothing else.
   */
  lemma FileInputSpec(f: map<string, Value>)
    ensures FileInput(VObject(f)).Ok? <==>
      && (Field(f, "name").VUndefined? || Field(f, "name").VString?)
      && Field(f, "content_type").VString? && Field(f, "content_type").s in FileContentTypes()
      && InputData(Field(f, "data")).Ok?
    ensures FileInput(VObject(f)).Ok? ==>
      var out := FileInput(VObject(f)).value.fields;
      && out.Keys == {"content_type", "data"} + (if "name" in f then {"name"} else {})
      && ("name" in f ==> out["name"] == f["name"])
      && out["content_type"] == f["content_type"]
      && out["data"] == InputData(f["data"]).value
  {
    InputDataSpec(Field(f, "data"));
    MediaShapeSpec(f, FileContentTypes(), InputData(Field(f, "data")));
  }

  /**
   * `FILE_OUTPUT` accepts a record exactly when `name` and `content_type`
   * pass as on input and `data` is strict base 64 text, which it decodes.
   */
  lemma FileOutputSpec(f: map<string, Value>)
    ensures FileOutput(VObject(f)).Ok? <==>
      && (Field(f, "name").VUndefined? || Field(f, "name").VString?)
      && Field(f, "content_type").VString? && Field(f, "content_type").s in FileContentTypes()
      && Field(f, "data").VString? && IsStrictBase64(Field(f, "data").s)
    ensures FileOutput(VObject(f)).Ok? ==>
      var out := FileOutput(VObject(f)).value.fields;
      && out.Keys == {"content_type", "data"} + (if "name" in f then {"name"} else {})
      && ("name" in f ==> out["name"] == f["name"])
      && out["content_type"] == f["content_type"]
      && out["data"] == VBuffer(Decode(f["data"].s))
  {
    MediaShapeSpec(f, FileContentTypes(), Base64ToBuffer(Field(f, "data")));
  }

  /** An `image/svg` record, or one without `data`, is refused on both sides. */
  lemma FileRejects(f: map<string, Value>)
    requires Field(f, "content_type") == VString("image/svg") || "data" !in f
    ensures FileInput(VObject(f)).Err? && FileOutput(VObject(f)).Err?
  {
    FileInputSpec(f);
    FileOutputSpec(f);
    InputDataSpec(VUndefined);
  }

  /** A number is not file data; a buffer is not output data. */
  lemma FileRejectsData(f: map<string, Value>)
    requires Field(f, "data").VNumber? || Field(f, "data").VBuffer?
    ensures Field(f, "data").VNumber? ==> FileInput(VObject(f)).Err?
    ensures FileOutput(VObject(f)).Err?
  {
    FileInputSpec(f);
    FileOutputSpec(f);
    InputDataSpec(Field(f, "data"));
  }

  /**
   * What the output side makes of the input side's result: the data is
   * decoded back, for every accepted input whose data is not taken from a
   * data URL as it stands.
   */
  lemma FileInputOutput(f: map<string, Value>)
    requires FileInput(VObject(f)).Ok?
    requires Field(f, "data").VBuffer? || Field(f, "data").VArrayBuffer? || (Field(f, "data").VString? && IsStrictBase64(Field(f, "data").s))
    ensures FileOutput(FileInput(VObject(f)).value).Ok?
    ensures "data" in FileOutput(FileInput(VObject(f)).value).value.fields
    ensures FileOutput(FileInput(VObject(f)).value).value.fields["data"] ==
      VBuffer(if Field(f, "data").VString? then Decode(Field(f, "data").s) else Field(f, "data").bytes)
  {
    FileInputSpec(f);
    var g := FileInput(VObject(f)).value.fields;
    InputDataSpec(f["data"]);
    if f["data"].VBuffer? || f["data"].VArrayBuffer? {
      DecodeEncode(f["data"].bytes);
    }
    assert Field(g, "name") == Field(f, "name");
    FileOutputSpec(g);
  }

  /** The input side of the older data URL variant, which re-checks the payload. */
  function CheckedInputData(v: Value): Parsed {
    Resolved(Union2(Base64String(v), Union2(CheckedDataUrlToBase64(v), BufferToBase64(v))))
  }

  /** It yields strict base 64 text whenever it succeeds. */
  lemma CheckedInputDataIsStrict(v: Value)
    requires CheckedInputData(v).Ok?
    ensures CheckedInputData(v).value.VString? && IsStrictBase64(CheckedInputData(v).value.s)
  {
    if Base64String(v).Err? && CheckedDataUrlToBase64(v).Ok? {
      CheckedPayloadIsStrict(v);
    }
  }

  /** `FILE_INPUT` with the data URL variant that re-checks the payload. */
  function CheckedFileInput(v: Value): Parsed {
    if v.VObject? then ObjectOf(v.fields, MediaShape(v.fields, FileContentTypes(), CheckedInputData(Field(v.fields, "data"))))
    else Fail(InvalidType)
  }

  /**
   * With the re-check, every record the input side accepts is accepted by
   * the output side, with the same `name` and `content_type`.
   */
  lemma CheckedFileInputOutput(f: map<string, Value>)
    requires CheckedFileInput(VObject(f)).Ok?
    ensures CheckedInputData(Field(f, "data")).Ok?
    ensures FileOutput(CheckedFileInput(VObject(f)).value).Ok?
    ensures var out := FileOutput(CheckedFileInput(VObject(f)).value).value.fields;
      && out.Keys == {"content_type", "data"} + (if "name" in f then {"name"} else {})
      && ("name" in f ==> out["name"] == f["name"])
      && out["content_type"] == Field(f, "content_type")
      && out["data"] == VBuffer(Decode(CheckedInputData(Field(f, "data")).value.s))
  {
    var d := CheckedInputData(Field(f, "data"));
    MediaShapeSpec(f, FileContentTypes(), d);
    CheckedInputDataIsStrict(Field(f, "data"));
    var g := CheckedFileInput(VObject(f)).value.fields;
    assert Field(g, "name") == Field(f, "name");
    FileOutputSpec(g);
  }

  /** A string whose fifth character is `:` is not strict base 64: `:` is outside the alphabet. */
  lemma ColonNotStrict(s: string)
    requires |s| > 4 && s[4] == ':'
    ensures !IsStrictBase64(s)
  {
    StrictFormEquivalent(s);
    assert !IsAlphabetChar(s[4]);
  }

  /**
   * As written, the input side accepts a data URL whose payload the output
   * side then refuses.
   */
  lemma UncheckedDataUrlFile(f: map<string, Value>, ct: string, m: string, p: string)
    requires ct == "application/pdf" && m == "text/plain" && p == "invalidbase64"
    requires "name" !in f && Field(f, "content_type") == VString(ct)
    requires Field(f, "data") == VString("data:" + m + ";base64," + p)
    ensures FileInput(VObject(f)).Ok?
    ensures FileInput(VObject(f)).value.fields == map["content_type" := VString(ct), "data" := VString(p)]
    ensures FileOutput(FileInput(VObject(f)).value).Err?
    ensures CheckedInputData(Field(f, "data")).Err?
  {
    UncheckedData(Field(f, "data"), m, p);
    assert ct in FileContentTypes();
    NonStrictDataFile(f, p);
  }

  /** The invalid payload passes the input side unchecked and fails the checked one. */
  lemma UncheckedData(d: Value, m: string, p: string)
    requires m == "text/plain" && p == "invalidbase64"
    requires d == VString("data:" + m + ";base64," + p)
    ensures InputData(d) == Ok(VString(p)) && !IsStrictBase64(p)
    ensures CheckedInputData(d).Err?
  {
    UncheckedPayloadAccepted(m, p);
    InvalidPattern(p);
    assert d.s[4] == ':';
    ColonNotStrict(d.s);
    NonStrictUrlData(d, p);
  }

  /** A data URL the unchecked variant accepts and the checked one refuses. */
  lemma NonStrictUrlData(d: Value, p: string)
    requires d.VString? && !IsStrictBase64(d.s)
    requires DataUrlToBase64(d) == Ok(VString(p)) && CheckedDataUrlToBase64(d).Err?
    ensures InputData(d) == Ok(VString(p)) && CheckedInputData(d).Err?
  {
  }

  /** A record whose data the input side turns into text that is not strict base 64 fails on output. */
  lemma NonStrictDataFile(f: map<string, Value>, p: string)
    requires "name" !in f && Field(f, "content_type").VString? && Field(f, "content_type").s in FileContentTypes()
    requires InputData(Field(f, "data")) == Ok(VString(p)) && !IsStrictBase64(p)
    ensures FileInput(VObject(f)).Ok?
    ensures FileInput(VObject(f)).value.fields == map["content_type" := f["content_type"], "data" := VString(p)]
    ensures FileOutput(FileInput(VObject(f)).value).Err?
  {
    FileInputSpec(f);
    var g := FileInput(VObject(f)).value.fields;
    assert g == map["content_type" := f["content_type"], "data" := VString(p)];
    FileOutputSpec(g);
  }
}
