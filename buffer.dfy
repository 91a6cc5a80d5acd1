/**
 * The byte-carrying atoms: `BUFFER` (a Node `Buffer`, or an `ArrayBuffer`
 * made into one), `BUFFER_TO_BASE64` (its base 64 text) and
 * `BASE64_TO_BUFFER` (strict base 64 text decoded to bytes).
 */
module BufferAtoms {
  import opened Wrappers
  import opened Base64
  import opened ZodValues

  /** `BUFFER`: the union of `z.instanceof(Buffer)` and `z.instanceof(ArrayBuffer)` made into a `Buffer`. */
  function Buffer(v: Value): (r: Parsed)
    ensures r.Ok? <==> v.VBuffer? || v.VArrayBuffer?
    ensures r.Ok? ==> r.value == VBuffer(v.bytes)
    ensures r.Err? ==> r.error == Issue([], InvalidUnion)
  {
    var asBuffer := if v.VBuffer? then Ok(v) else Fail(InvalidType);
    var fromArrayBuffer := if v.VArrayBuffer? then Ok(VBuffer(v.bytes)) else Fail(InvalidType);
    Union2(asBuffer, fromArrayBuffer)
  }

  /** `BUFFER_TO_BASE64`: `buf.toString('base64')` of what `BUFFER` accepts. */
  function BufferToBase64(v: Value): (r: Parsed)
    ensures r.Ok? <==> v.VBuffer? || v.VArrayBuffer?
    ensures r.Ok? ==> r.value.VString? && IsStrictBase64(r.value.s)
    ensures r.Err? ==> r == Buffer(v)
  {
    match Buffer(v)
    case Err(e) => Err(e)
    case Ok(buf) =>
      DecodeEncode(buf.bytes);
      Ok(VString(Encode(buf.bytes)))
  }

  /** `BASE64_TO_BUFFER`: `Buffer.from(b64, 'base64')` of what `z.string().base64()` accepts. */
  function Base64ToBuffer(v: Value): (r: Parsed)
    ensures r.Ok? <==> v.VString? && IsStrictBase64(v.s)
    ensures r.Ok? ==> r.value.VBuffer?
    ensures r.Err? ==> r == Base64String(v)
  {
    match Base64String(v)
    case Err(e) => Err(e)
    case Ok(s) => Ok(VBuffer(Decode(s.s)))
  }

  /** The text `BUFFER_TO_BASE64` yields is the padded encoding of the bytes, for both kinds of buffer. */
  lemma BufferToBase64Encodes(v: Value)
    requires v.VBuffer? || v.VArrayBuffer?
    ensures BufferToBase64(v) == Ok(VString(Encode(v.bytes)))
    ensures BufferToBase64(VBuffer(v.bytes)) == BufferToBase64(VArrayBuffer(v.bytes))
  {
  }

  /** Decoding what was encoded gives back the bytes: the two transforms are inverse. */
  lemma BufferRoundTrip(v: Value)
    requires v.VBuffer? || v.VArrayBuffer?
    ensures Base64ToBuffer(BufferToBase64(v).value) == Buffer(v)
  {
    DecodeEncode(v.bytes);
  }

  /** Strings, numbers and the like are not buffers. */
  lemma NonBuffersRejected(s: string, n: int)
    ensures Buffer(VString(s)).Err? && BufferToBase64(VString(s)).Err?
    ensures Base64ToBuffer(VNumber(n)) == Err(Issue([], InvalidType))
  {
  }

  /** The fixtures: the bytes of `'test'` and their text `'dGVzdA=='`; `'invalid'` is not base 64. */
  lemma BufferFixtures()
    ensures Buffer(VArrayBuffer(TestBytes())) == Ok(VBuffer(TestBytes()))
    ensures BufferToBase64(VBuffer(TestBytes())) == Ok(VString("dGVzdA=="))
    ensures BufferToBase64(VArrayBuffer(TestBytes())) == Ok(VString("dGVzdA=="))
    ensures Base64ToBuffer(VString("dGVzdA==")) == Ok(VBuffer(TestBytes()))
    ensures Base64ToBuffer(VString("invalid")) == Err(Issue([], InvalidString("base64")))
  {
    EncodeTest();
    NotStrict();
  }
}
