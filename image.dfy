/**
 * The Image atom: the record of the File atom restricted to six image
 * types, whose input `data` must be a buffer (sent as base 64 text) and
 * whose output `data` must be strict base 64 text (decoded to bytes).
 */
module ImageAtom {
  import opened Wrappers
  import opened Base64
  import opened ZodValues
  import opened BufferAtoms

  /** `IMAGE_CONTENT_TYPE`. */
  function ImageContentTypes(): seq<string> {
    ["image/png", "image/jpg", "image/jpeg", "image/webp", "image/tiff", "image/gif"]
  }

  /** `IMAGE_INPUT`. */
  function ImageInput(v: Value): Parsed {
    if v.VObject? then ObjectOf(v.fields, MediaShape(v.fields, ImageContentTypes(), BufferToBase64(Field(v.fields, "data"))))
    else Fail(InvalidType)
  }

  /** `IMAGE_OUTPUT`. */
  function ImageOutput(v: Value): Parsed {
    if v.VObject? then ObjectOf(v.fields, MediaShape(v.fields, ImageContentTypes(), Base64ToBuffer(Field(v.fields, "data"))))
    else Fail(InvalidType)
  }

  /**
   * `IMAGE_INPUT` accepts a record exactly when `name` is absent or a
   * string, `content_type` is one of the six types and `data` is a buffer;
   * the result carries the base 64 text of the bytes.
   */
  lemma ImageInputSpec(f: map<string, Value>)
    ensures ImageInput(VObject(f)).Ok? <==>
      && (Field(f, "name").VUndefined? || Field(f, "name").VString?)
      && Field(f, "content_type").VString? && Field(f, "content_type").s in ImageContentTypes()
      && (Field(f, "data").VBuffer? || Field(f, "data").VArrayBuffer?)
    ensures ImageInput(VObject(f)).Ok? ==>
      var out := ImageInput(VObject(f)).value.fields;
      && out.Keys == {"content_type", "data"} + (if "name" in f then {"name"} else {})
      && ("name" in f ==> out["name"] == f["name"])
      && out["content_type"] == f["content_type"]
      && out["data"] == VString(Encode(f["data"].bytes))
  {
    MediaShapeSpec(f, ImageContentTypes(), BufferToBase64(Field(f, "data")));
    if Field(f, "data").VBuffer? || Field(f, "data").VArrayBuffer? {
      BufferToBase64Encodes(Field(f, "data"));
    }
  }

  /**
   * `IMAGE_OUTPUT` accepts a record exactly when `name` and
   * `content_type` pass as on input and `data` is strict base 64 text,
   * which it decodes.
   */
  lemma ImageOutputSpec(f: map<string, Value>)
    ensures ImageOutput(VObject(f)).Ok? <==>
      && (Field(f, "name").VUndefined? || Field(f, "name").VString?)
      && Field(f, "content_type").VString? && Field(f, "content_type").s in ImageContentTypes()
      && Field(f, "data").VString? && IsStrictBase64(Field(f, "data").s)
    ensures ImageOutput(VObject(f)).Ok? ==>
      var out := ImageOutput(VObject(f)).value.fields;
      && out.Keys == {"content_type", "data"} + (if "name" in f then {"name"} else {})
      && ("name" in f ==> out["name"] == f["name"])
      && out["content_type"] == f["content_type"]
      && out["data"] == VBuffer(Decode(f["data"].s))
  {
    MediaShapeSpec(f, ImageContentTypes(), Base64ToBuffer(Field(f, "data")));
  }

  /**
   * The output side undoes the input side: the record the input side
   * sends is accepted back with the bytes it started from.
   */
  lemma ImageRoundTrip(f: map<string, Value>)
    requires ImageInput(VObject(f)).Ok?
    ensures "data" in f && (f["data"].VBuffer? || f["data"].VArrayBuffer?)
    ensures ImageOutput(ImageInput(VObject(f)).value) ==
      Ok(VObject(ImageInput(VObject(f)).value.fields["data" := VBuffer(f["data"].bytes)]))
  {
    ImageInputSpec(f);
    var g := ImageInput(VObject(f)).value.fields;
    DecodeEncode(f["data"].bytes);
    assert Field(g, "name") == Field(f, "name");
    ImageOutputSpec(g);
    var h := ImageOutput(VObject(g)).value.fields;
    assert "name" in g <==> "name" in f;
    SameButData(g, h, VBuffer(f["data"].bytes));
  }

  /** Two records with the keys of a media record that differ at most in `data`. */
  lemma SameButData(g: map<string, Value>, h: map<string, Value>, v: Value)
    requires g.Keys == h.Keys == {"content_type", "data"} + (if "name" in g then {"name"} else {})
    requires h["content_type"] == g["content_type"] && h["data"] == v
    requires "name" in g ==> h["name"] == g["name"]
    ensures h == g["data" := v]
  {
  }

  /**
   * The refusals of the tests, for any record: an unlisted type such as
   * `image/svg`, a missing `content_type` or `data`, numeric `data`, a
   * buffer on the output side, and text that is not strict base 64.
   */
  lemma ImageRejects(f: map<string, Value>)
    ensures Field(f, "content_type") == VString("image/svg") ==> ImageInput(VObject(f)).Err? && ImageOutput(VObject(f)).Err?
    ensures "content_type" !in f || "data" !in f ==> ImageInput(VObject(f)).Err? && ImageOutput(VObject(f)).Err?
    ensures Field(f, "data").VNumber? || Field(f, "data").VString? ==> ImageInput(VObject(f)).Err?
    ensures Field(f, "data").VBuffer? ==> ImageOutput(VObject(f)).Err?
    ensures Field(f, "data") == VString("base64encodeddata") ==> ImageOutput(VObject(f)).Err?
  {
    ImageInputSpec(f);
    ImageOutputSpec(f);
    NotStrict();
  }

  /** The base 64 text of a 1x1 PNG, the `data` of the input fixtures. */
  const RedDot: string := "iVBORw0KGgoAAAANSUhEUgAAAAUAAAAFCAYAAACNbyblAAAAHElEQVQI12P4//8/w38GIAXDIBKE0DHxgljNBAAO9TXL0Y4OHwAAAABJRU5ErkJggg=="

  /**
   * The two input records that the image tests expect to be accepted, with
   * base 64 text as `data`, are refused: input `data` must be a buffer.
   */
  lemma TextDataInputRefused(f: map<string, Value>, g: map<string, Value>)
    requires f == map["name" := VString("image.png"), "content_type" := VString("image/png"), "data" := VString(RedDot)]
    requires g == map["content_type" := VString("image/jpeg"), "data" := VString(RedDot)]
    ensures ImageInput(VObject(f)).Err? && ImageInput(VObject(g)).Err?
  {
    assert Field(f, "data").VString? && Field(g, "data").VString?;
    ImageRejects(f);
    ImageRejects(g);
  }

  /** `name` may be left out on both sides. */
  lemma ImageNameOptional(f: map<string, Value>)
    requires "name" !in f
    requires Field(f, "content_type") == VString("image/png")
    ensures (Field(f, "data").VBuffer? || Field(f, "data").VArrayBuffer?) ==> ImageInput(VObject(f)).Ok?
    ensures Field(f, "data") == VString("dGVzdA==") ==> ImageOutput(VObject(f)).Ok?
  {
    ImageInputSpec(f);
    ImageOutputSpec(f);
    EncodeTest();
  }
}
