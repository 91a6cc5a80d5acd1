/**
 * The values the atom schemas parse and the zod building blocks they are
 * made of: strings, optional fields, enumerations and `z.object` records.
 *
 * A parse is a function from a value to either the (possibly transformed)
 * value or the first issue zod reports, with its path.
 */
module ZodValues {
  import opened Wrappers
  import opened Base64

  /** A JavaScript value as the atom schemas see it. A `Buffer` and an `ArrayBuffer` hold bytes. */
  datatype Value =
    | VUndefined
    | VNull
    | VBool(b: bool)
    | VNumber(n: int)
    | VString(s: string)
    | VBuffer(bytes: seq<Byte>)
    | VArrayBuffer(bytes: seq<Byte>)
    | VObject(fields: map<string, Value>)

  /** The zod issue codes the atoms raise; `InvalidString` names the failed check. */
  datatype IssueCode = InvalidType | InvalidString(validation: string) | InvalidEnumValue | InvalidUnion

  datatype Issue = Issue(path: seq<string>, code: IssueCode)

  type Parsed = Result<Value, Issue>

  /** An issue at the value itself. */
  function Fail(code: IssueCode): (r: Parsed)
    ensures r.Err? && r.error.path == []
  {
    Err(Issue([], code))
  }

  /** `z.string()`. */
  function Str(v: Value): (r: Parsed)
    ensures r.Ok? <==> v.VString?
    ensures r.Ok? ==> r.value == v
    ensures r.Err? ==> r.error == Issue([], InvalidType)
  {
    if v.VString? then Ok(v) else Fail(InvalidType)
  }

  /** `z.string().optional()`: a missing value passes as `undefined`. */
  function OptionalStr(v: Value): (r: Parsed)
    ensures r.Ok? <==> v.VUndefined? || v.VString?
    ensures r.Ok? ==> r.value == v
  {
    if v.VUndefined? then Ok(v) else Str(v)
  }

  /** `z.enum(options)`: one of the listed strings, unchanged. */
  function Enum(options: seq<string>, v: Value): (r: Parsed)
    ensures r.Ok? <==> v.VString? && v.s in options
    ensures r.Ok? ==> r.value == v
  {
    if v.VString? && v.s in options then Ok(v)
    else if v.VString? then Fail(InvalidEnumValue)
    else Fail(InvalidType)
  }

  /** `z.string().base64()`: a string in the strict form, unchanged. */
  function Base64String(v: Value): (r: Parsed)
    ensures r.Ok? <==> v.VString? && IsStrictBase64(v.s)
    ensures r.Ok? ==> r.value == v
    ensures r.Err? && v.VString? ==> r.error == Issue([], InvalidString("base64"))
  {
    if !v.VString? then Fail(InvalidType)
    else if IsStrictBase64(v.s) then Ok(v)
    else Fail(InvalidString("base64"))
  }

  /** `input[k]`: a missing key reads as `undefined`. */
  function Field(fields: map<string, Value>, k: string): Value {
    if k in fields then fields[k] else VUndefined
  }

  /** No key of the shape appears twice. */
  predicate DistinctShape(parsed: seq<(string, Parsed)>) {
    forall i, j :: 0 <= i < j < |parsed| ==> parsed[i].0 != parsed[j].0
  }

  /**
   * The record `z.object(shape)` builds from its input's fields, given the
   * result of each shape key's schema on `input[key]`, in shape order. The
   * first failing key reports its issue under its own name. A key is kept
   * when the input has it or its parsed value is not `undefined`; keys of
   * the input outside the shape are stripped.
   */
  function ObjectOf(input: map<string, Value>, parsed: seq<(string, Parsed)>): (r: Parsed)
    ensures r.Ok? ==> r.value.VObject?
    decreases |parsed|
  {
    if |parsed| == 0 then Ok(VObject(map[]))
    else
      var k := parsed[0].0;
      match parsed[0].1
      case Err(e) => Err(Issue([k] + e.path, e.code))
      case Ok(v) =>
        var rest := ObjectOf(input, parsed[1..]);
        if rest.Err? then rest
        else if k in input || v != VUndefined then Ok(VObject(rest.value.fields[k := v]))
        else rest
  }

  /**
   * What `z.object` promises: it succeeds exactly when every key's schema
   * succeeds; the record then holds exactly the kept keys with their
   * parsed values, and on failure the issue is the first failing key's,
   * under that key.
   */
  lemma {:induction false} ObjectOfSpec(input: map<string, Value>, parsed: seq<(string, Parsed)>)
    requires DistinctShape(parsed)
    ensures ObjectOf(input, parsed).Ok? <==> forall i :: 0 <= i < |parsed| ==> parsed[i].1.Ok?
    ensures ObjectOf(input, parsed).Ok? ==>
      forall i :: 0 <= i < |parsed| ==>
        && (parsed[i].0 in ObjectOf(input, parsed).value.fields <==> parsed[i].0 in input || parsed[i].1.value != VUndefined)
        && (parsed[i].0 in ObjectOf(input, parsed).value.fields ==> ObjectOf(input, parsed).value.fields[parsed[i].0] == parsed[i].1.value)
    ensures ObjectOf(input, parsed).Ok? ==>
      forall k :: k in ObjectOf(input, parsed).value.fields ==> exists i :: 0 <= i < |parsed| && parsed[i].0 == k
    ensures ObjectOf(input, parsed).Err? ==>
      exists i :: 0 <= i < |parsed| && parsed[i].1.Err? && (forall j :: 0 <= j < i ==> parsed[j].1.Ok?) &&
        ObjectOf(input, parsed).error == Issue([parsed[i].0] + parsed[i].1.error.path, parsed[i].1.error.code)
    decreases |parsed|
  {
    ObjectOfOk(input, parsed);
    ObjectOfFields(input, parsed);
    ObjectOfKeys(input, parsed);
    ObjectOfError(input, parsed);
  }

  lemma DistinctTail(parsed: seq<(string, Parsed)>)
    requires DistinctShape(parsed) && |parsed| > 0
    ensures DistinctShape(parsed[1..])
    ensures forall i :: 1 <= i < |parsed| ==> parsed[i] == parsed[1..][i - 1] && parsed[i].0 != parsed[0].0
    ensures forall i :: 0 <= i < |parsed| - 1 ==> parsed[1..][i].0 != parsed[0].0
  {
    var tail := parsed[1..];
    forall i, j | 0 <= i < j < |tail| ensures tail[i].0 != tail[j].0 {
      assert tail[i] == parsed[i + 1] && tail[j] == parsed[j + 1];
    }
  }

  lemma {:induction false} ObjectOfOk(input: map<string, Value>, parsed: seq<(string, Parsed)>)
    ensures ObjectOf(input, parsed).Ok? <==> forall i :: 0 <= i < |parsed| ==> parsed[i].1.Ok?
    decreases |parsed|
  {
    if |parsed| > 0 {
      ObjectOfOk(input, parsed[1..]);
      assert forall i :: 1 <= i < |parsed| ==> parsed[i] == parsed[1..][i - 1];
    }
  }

  lemma {:induction false} ObjectOfFields(input: map<string, Value>, parsed: seq<(string, Parsed)>)
    requires DistinctShape(parsed)
    ensures ObjectOf(input, parsed).Ok? ==>
      forall i :: 0 <= i < |parsed| ==>
        && parsed[i].1.Ok?
        && (parsed[i].0 in ObjectOf(input, parsed).value.fields <==> parsed[i].0 in input || parsed[i].1.value != VUndefined)
        && (parsed[i].0 in ObjectOf(input, parsed).value.fields ==> ObjectOf(input, parsed).value.fields[parsed[i].0] == parsed[i].1.value)
    decreases |parsed|
  {
    if |parsed| > 0 {
      DistinctTail(parsed);
      var tail := parsed[1..];
      ObjectOfFields(input, tail);
      ObjectOfOk(input, tail);
      ObjectOfKeys(input, tail);
    }
  }

  lemma {:induction false} ObjectOfKeys(input: map<string, Value>, parsed: seq<(string, Parsed)>)
    ensures ObjectOf(input, parsed).Ok? ==>
      forall k :: k in ObjectOf(input, parsed).value.fields ==> exists i :: 0 <= i < |parsed| && parsed[i].0 == k
    decreases |parsed|
  {
    if |parsed| > 0 {
      var tail := parsed[1..];
      ObjectOfKeys(input, tail);
      var r := ObjectOf(input, parsed);
      if r.Ok? {
        var rest := ObjectOf(input, tail);
        forall k | k in r.value.fields ensures exists i :: 0 <= i < |parsed| && parsed[i].0 == k {
          if k != parsed[0].0 {
            assert k in rest.value.fields;
            var i :| 0 <= i < |tail| && tail[i].0 == k;
            assert parsed[i + 1].0 == k;
          }
        }
      }
    }
  }

  lemma {:induction false} ObjectOfError(input: map<string, Value>, parsed: seq<(string, Parsed)>)
    ensures ObjectOf(input, parsed).Err? ==>
      exists i :: 0 <= i < |parsed| && parsed[i].1.Err? && (forall j :: 0 <= j < i ==> parsed[j].1.Ok?) &&
        ObjectOf(input, parsed).error == Issue([parsed[i].0] + parsed[i].1.error.path, parsed[i].1.error.code)
    decreases |parsed|
  {
    if |parsed| > 0 {
      var tail := parsed[1..];
      ObjectOfError(input, tail);
      var rest := ObjectOf(input, tail);
      if parsed[0].1.Ok? && rest.Err? {
        var i :| 0 <= i < |tail| && tail[i].1.Err? && (forall j :: 0 <= j < i ==> tail[j].1.Ok?) &&
          rest.error == Issue([tail[i].0] + tail[i].1.error.path, tail[i].1.error.code);
        assert parsed[i + 1] == tail[i];
        forall j | 0 <= j < i + 1 ensures parsed[j].1.Ok? {
          if j > 0 {
            assert parsed[j] == tail[j - 1];
          }
        }
      }
    }
  }

  /** `z.union` of two schemas: the first that succeeds; when both fail, one `InvalidUnion` issue stands for what zod reports. */
  function Union2(a: Parsed, b: Parsed): (r: Parsed)
    ensures r.Ok? <==> a.Ok? || b.Ok?
    ensures a.Ok? ==> r == a
    ensures !a.Ok? && b.Ok? ==> r == b
    ensures r.Err? ==> r.error == Issue([], InvalidUnion)
  {
    if a.Ok? then a else if b.Ok? then b else Fail(InvalidUnion)
  }

  /**
   * The record shape the File and Image atoms share: an optional string
   * `name`, a `content_type` from a list, and `data` by its own schema
   * (whose result on `input.data` is given).
   */
  function MediaShape(f: map<string, Value>, types: seq<string>, data: Parsed): seq<(string, Parsed)> {
    [("name", OptionalStr(Field(f, "name"))),
     ("content_type", Enum(types, Field(f, "content_type"))),
     ("data", data)]
  }

  /**
   * Such a record is accepted exactly when `name` is absent or a string,
   * `content_type` is listed and `data` is accepted; the result keeps
   * `name` only when the input has it, holds the accepted `content_type`
   * and `data`, and nothing else.
   */
  lemma MediaShapeSpec(f: map<string, Value>, types: seq<string>, data: Parsed)
    requires data.Ok? ==> data.value != VUndefined
    ensures ObjectOf(f, MediaShape(f, types, data)).Ok? <==>
      && (Field(f, "name").VUndefined? || Field(f, "name").VString?)
      && Field(f, "content_type").VString? && Field(f, "content_type").s in types
      && data.Ok?
    ensures ObjectOf(f, MediaShape(f, types, data)).Ok? ==>
      var out := ObjectOf(f, MediaShape(f, types, data)).value.fields;
      && out.Keys == {"content_type", "data"} + (if "name" in f then {"name"} else {})
      && ("name" in f ==> out["name"] == f["name"])
      && out["content_type"] == f["content_type"]
      && out["data"] == data.value
  {
    var shape := MediaShape(f, types, data);
    assert DistinctShape(shape);
    ObjectOfOk(f, shape);
    if ObjectOf(f, shape).Ok? {
      ObjectOfFields(f, shape);
      ObjectOfKeys(f, shape);
      MediaShapeKeys(shape, ObjectOf(f, shape).value.fields, "name" in f);
    }
  }

  /** The keys of a decoded media record are those of the input's media fields. */
  lemma MediaShapeKeys(shape: seq<(string, Parsed)>, out: map<string, Value>, named: bool)
    requires |shape| == 3 && shape[0].0 == "name" && shape[1].0 == "content_type" && shape[2].0 == "data"
    requires forall k :: k in out ==> exists i :: 0 <= i < |shape| && shape[i].0 == k
    requires "name" in out <==> named
    requires "content_type" in out && "data" in out
    ensures out.Keys == {"content_type", "data"} + (if named then {"name"} else {})
  {
    forall k | k in out ensures k in {"content_type", "data", "name"} {
      var i :| 0 <= i < |shape| && shape[i].0 == k;
    }
  }
}
