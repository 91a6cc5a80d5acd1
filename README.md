# WorkflowAI SDK schema layer, in Dafny

This project models and verifies the schema layer of the WorkflowAI
JavaScript SDK, together with the small pure helpers around it.

**The local `$ref` resolver** (`json_doc.dfy`, `json_schema_refs.dfy`,
`json_schema_refs_examples.dfy`).
- A JSON document is a heap of objects: an arena `map<NodeId, Entries>` whose
  values may point at other nodes, so aliasing and `#`-cycles are visible as
  id equality. `JsonDoc.Document` is the mutable document.
- `findRefs` is a method that appends to a shared accumulator. It is proved
  equal to the recursive specification `FindNode`, including the collapsing
  of chains.
- `resolveRefs` is a method that updates the document edge by edge. It is
  proved equal to the specification `Resolve`. It covers all three
  behaviours: aliasing, merging in three orders with `keepRefs` renaming,
  and keeping a `$ref` marker. It also covers the warn/throw/skip policy
  for unresolvable pointers, and `hydrateRefs` with its filter.
- The test fixtures of the resolver are proved as lemmas on concrete
  heaps.

**`sanitize`** (`sanitize_json_schema.dfy`). This is the in-place inference of
a missing `type`. It is proved equal to a recursive specification, and
that specification is proved idempotent and to only add `type` keys.

**The registry hooks** (`registry.dfy`, `schema_to_zod.dfy`,
`zod_to_schema.dfy`). These are the `$ref`-suffix parser override of
`schemaToZod`, its hydration pre-step, and the loop of `zodToSchema` that
builds the input and output definition tables.

**The atoms** (`zod_values.dfy`, `base64.dfy`, `buffer.dfy`, `data_url.dfy`,
`file.dfy`, `image.dfy`, `datetime_local.dfy`).
- Each atom is a parse function from a small value datatype to a result.
- Base64 follows section 4 of RFC 4648, with a proved round trip.
- The base64 data URL of section 3 of RFC 2397 comes in its two variants.
- There are the file and image records.
- The `datetimeLocal` record is proved against `full-date` and
  `partial-time` of section 5.6 of RFC 3339.

**The SDK rules**:
- `extractError` in its two snapshots (`error_response.dfy`);
- the `WorkflowAIError` fields (`api_error.dfy`);
- `Retry-After`, section 10.2.3 of RFC 9110 (`retry_after.dfy`, `http.dfy`);
- the retry settings, the retry predicate and a driver loop for the retries
  (`retriable_fetch.dfy`);
- the code generator's string helpers (`playground.dfy`);
- group references (`group.dfy`).

`js_values.dfy`, `strings.dfy` and `wrappers.dfy` hold the JavaScript
values, the string operations (`split`, `trim`, last segment) and
`Option`/`Result`.

**Where the code and its tests disagree, the model follows the code, except for the override registry, which follows the tests.**
- The data-URL check of `packages/schema/src/atoms/data-url.ts` does not
  re-check its payload, which its own test expects; see "## Findings".
  The file atom inherits this. The model keeps both variants: as written
  (`DataUrl.UncheckedPayloadAccepted`, `FileAtom.UncheckedDataUrlFile`)
  and re-checked, as in `src/schema/atoms/data-url.ts`
  (`DataUrl.CheckedPayloadIsStrict`, `FileAtom.CheckedFileInputOutput`).
- `packages/schema/src/__tests__/atoms/image.test.ts:4-21` expects
  `IMAGE_INPUT` to accept records whose `data` is base 64 text. The input
  `data` of `packages/schema/src/atoms/image.ts:17` is `BUFFER_TO_BASE64`,
  which accepts only buffers, so those records are refused
  (`ImageAtom.TextDataInputRefused`). That test evidently targets another
  snapshot of the image atom.
- The override registry of `schemaToZod.ts` reads `jsonSchemaDefinitionKey`
  and the extension names from each definition, and searches the
  definitions with `find`. The `definitions.ts` of this snapshot
  (`packages/schema/src/definitions.ts:11-15`) is a plain object of the
  atoms without those fields. The registry of `Registry.OverrideDefinitions`
  is therefore rebuilt from the expectations of
  `packages/schema/src/schemaToZod.test.ts:281-388`. As written,
  `packages/schema/src/schemaToZod.ts:19` calls `find` on that plain
  object, which throws a `TypeError` for every node with a truthy `$ref`;
  the model does not follow that path.

## Model

| member | source | states |
|---|---|---|
| ErrorResponse.ExtractError | src/api/errorResponse.ts:54-75 | whatever the body, the result is an object record; the function never fails |
| ErrorResponse.ExtractErrorCases | src/api/errorResponse.ts:55-74 | a primitive, `null` or key-less body gives the default `internal_error` record with status 500; a body naming `error` is returned as it is (even when it also names `detail`); a body naming only `detail` becomes `{error: {details: detail}}` and nothing else; any other object becomes `{}` |
| ErrorResponse.ExtractErrorHasError | packages/api/src/ErrorResponse.ts:36-55 | the result has an `error` member exactly when the body was empty of content, named `error` or named `detail` |
| ErrorResponse.ExtractErrorStable | src/api/errorResponse.ts:54-75 | extracting an already extracted record that has `error` gives it back unchanged; the empty record turns into the default on a second pass |
| ErrorResponse.MessageOnlyBody | src/api/Error.test.ts:5-12 | `{message: 'Error details'}` gives the empty record |
| ApiError.NewWorkflowAIError | src/api/error.ts:34-44 | the error keeps the detail and the response as given, and copies the response's URL and status |
| ApiError.MessageFormat | src/api/error.ts:35-43 | the message is `Failed to request <url>: ` followed by the first non-nullish of `error.code` and `error.details`, else `unknown error`; `errorCode` is `error.code`, `undefined` when the detail has no `error` |
| ApiError.CodeBeforeDetails | src/api/middlewares/throwError.test.ts:93-99 | a detail whose `error.code` is a string ends the message with that code, whatever the details say, and that code is the error code |
| ApiError.DefaultDetailMessage | src/api/error.ts:34-44 | an error built from the default record of a content-less body reads `...: internal_error` and has code `internal_error` |
| ApiError.DefaultErrorCode | src/api/errorResponse.ts:60-66 | the default record's `error.code` is `internal_error` |
| ApiError.EmptyDetail | src/api/error.ts:36-43 | an error built from the empty record reads `...: unknown error`, has no code and keeps `{}` as its detail |
| RetryAfter.RetryAfterDelayCases | src/api/utils/getRetryAfter.ts:13-37 | no header, `null` or empty text gives the default; text `Number()` reads as finite gives that many seconds in milliseconds; other text gives the default when the date parser fails or the date has passed, and otherwise the milliseconds left until it |
| RetryAfter.RetryAfterDelayOutcome | src/api/utils/getRetryAfter.ts:21-36 | every delay is the default, a number of seconds times 1000, or the time left until a parsed date, and that last one is never negative |
| RetryAfter.DelaySecondsHeader | src/api/utils/getRetryAfter.ts:21-24 | a run of decimal digits (the delay-seconds form of section 10.2.3 of RFC 9110) gives its value times 1000 |
| RetryAfter.SecondsOfDigits | src/api/utils/getRetryAfter.ts:21-22 | `Number()` of a run of digits is its decimal value |
| RetryAfter.SixtySeconds | packages/workflowai/src/api/utils/getRetryAfter.test.ts:13-15 | `'60'` gives 60000 |
| RetryAfter.NegativeSecondsNotClamped | src/api/utils/getRetryAfter.ts:21-24 | `-` followed by digits gives minus their value times 1000, which is negative for a non-zero value: the numeric branch does not clamp |
| RetryAfter.NegativeSeconds | src/api/utils/getRetryAfter.ts:21 | `Number()` of `-` and digits is minus their value |
| RetryAfter.UnparsableHeader | packages/workflowai/src/api/utils/getRetryAfter.test.ts:17-19 | `'abc'`, which is no number and which the date parser rejects, gives the default |
| RetryAfter.DateHeader | src/api/utils/getRetryAfter.ts:26-36 | a date ahead of the clock gives the positive time left until it; a date behind the clock gives the default |
| RetryAfter.RetryAfterHeader | src/api/utils/getRetryAfter.ts:45-49 | no response gives `undefined`; a response gives its `Retry-After` header, `null` when absent |
| RetryAfter.RetryAfterHeaderLookup | packages/workflowai/src/api/utils/getRetryAfter.test.ts:32-43 | the header is found under its lower-case name, so the lookup does not depend on the case it was sent in |
| Http.HeaderGet | src/api/utils/getRetryAfter.ts:48 | the header is present exactly when its lower-case name is stored, and then has the stored value; otherwise it is `null` |
| Group.SanitizeCases | packages/client/src/Group.ts:29-43 | `null` and `undefined` give `null`; a reference with `environment` gives a record with the single key `alias` set to `environment=` and the environment; any other reference is returned unchanged |
| Group.IsGroupReferenceIffRecord | packages/client/src/Group.ts:19-23 | among references, `null` and `undefined`, exactly the records are group references |
| Group.SanitizeIdempotent | packages/client/src/Group.ts:29-43 | the result is `null` or a record without `environment`, and sanitizing it again gives it back |
| Group.ProductionEnvironment | packages/client/src/Group.ts:36-40 | `{environment: 'production'}` becomes `{alias: 'environment=production'}` |
| RetriableFetch.InitField | packages/api/src/utils/retriableFetch.ts:29 | spreading a missing init, or reading a field the init does not have, gives `undefined` |
| RetriableFetch.ResolveSettings | packages/api/src/utils/retriableFetch.ts:29-35 | the `let` bindings after their `??=` updates are the coalesced settings: an explicit value is kept, while `undefined` and `null` alike become 1 retry, 5000 ms and 60000 ms |
| RetriableFetch.SnapshotsAgreeWithoutNull | packages/api/src/utils/fetch.ts:31-35 | the destructuring defaults of the newer snapshot resolve an init as the `??=` defaults do exactly when no retry field is an explicit `null`; without an init both give 1 / 5000 / 60000 |
| RetriableFetch.RetryOnConditions | packages/api/src/utils/retriableFetch.ts:45-62 | `retryOn` is false once `attempt >= retries`, false unless there was a network error or a 429, and true exactly when all of: below the budget, a network error or 429, and the clock plus the `retryDelay` wait strictly before `abortRetriesAt` |
| RetriableFetch.SettingsAccepted | packages/api/src/utils/fetch.ts:31-41 | the `??=` settings are refused by fetch-retry exactly when `retries` is an explicit negative number; the destructured settings also when it is an explicit `null`, which the default does not replace |
| RetriableFetch.Requests | packages/api/src/utils/retriableFetch.ts:37-64 | no request at all exactly when fetch-retry refuses `retries` (negative or `null`); otherwise at least one, at most `retries - attempt + 1` from attempt `attempt` on, and exactly one once the budget is spent |
| RetriableFetch.FetchWithRetry | packages/api/src/utils/retriableFetch.ts:37-64 | the call ends in an `ArgumentError` exactly when `retries` is refused; otherwise the driver loop, with the deadline fixed once at `start + maxRetryDelay`, makes the number of requests `Requests` counts (so at most `retries + 1`) and hands back the outcome of the last of them |
| RetriableFetch.NullRetriesRefused | packages/api/src/utils/fetch.ts:31-41 | an explicit `retries: null` under the destructuring defaults leads to no request, while the `??=` snapshot turns it into 1 retry |
| RetriableFetch.NotRetriable | packages/api/src/utils/fetch.test.ts:92-98 | a first response that is neither a network error nor a 429, such as a 500, ends the call after one request, or after none when `retries` is refused |
| RetriableFetch.WaitPastDeadline | packages/api/src/utils/fetch.ts:53-59 | a first wait of at least `maxRetryDelay` means no retry: one request, or none when `retries` is refused |
| RetriableFetch.PersistentThrottling | packages/api/src/utils/fetch.test.ts:58-63 | a persistent 429 with `retries: 3` gives four requests |
| RetriableFetch.NetworkErrorThenSuccess | packages/api/src/utils/fetch.test.ts:39-46 | a network error followed by a success, with `retries: 2`, gives two requests |
| RetriableFetch.ThrottledThenSuccess | packages/api/src/utils/fetch.test.ts:48-56 | a 429 without `Retry-After` followed by a success gives two requests |
| RetriableFetch.LongDelayNoRetry | packages/api/src/utils/fetch.test.ts:65-74 | a wait of 100000 ms against `maxRetryDelay: 5000` gives one request |
| RetriableFetch.WaitIsRetryDelay | packages/api/src/utils/fetch.ts:42-44 | without a response or without its `Retry-After` header, the `retryDelay` callback waits the configured `retryDelay` |
| RetriableFetch.MergedInitFields | packages/api/src/utils/fetch.ts:67-74 | in `{...init, ...retryInit}` every field named by `retryInit` takes its value from it, even `undefined`, and every other field comes from the per-call init |
| Playground.SplitPartsFrom | packages/code-generator/src/playground.ts:18 | splitting at each dash or whitespace character always gives at least one part |
| Playground.Capitalize | packages/code-generator/src/playground.ts:19 | the first character is upper-cased, with the ASCII mapping of the model, and every other character is kept, so the length is kept |
| Playground.ReplaceInvalid | packages/code-generator/src/playground.ts:23 | every character outside `[A-Za-z0-9_$]` becomes `_` and every other character is kept, position by position |
| Playground.CollapseUnderscores | packages/code-generator/src/playground.ts:23 | collapsing `_{2,}` leaves no two underscores in a row, keeps the first character and the character set, and changes nothing in a text without a double underscore |
| Playground.CollapseUnderscoresIsCollapsed | packages/code-generator/src/playground.ts:23 | the result is the input with exactly those `_` removed whose preceding input character is also `_`, and every other character kept in order, as `Collapsed` defines it from the end of the text |
| Playground.LowerFirst | packages/code-generator/src/playground.ts:26 | only the first character changes, to its lower case |
| Playground.ValidVarNameIsVarName | packages/code-generator/src/playground.ts:14-27 | every `validVarName` result consists of `[A-Za-z0-9_$]` only, so it has no dash and no whitespace; it has no two underscores in a row and does not start with an upper-case letter |
| Playground.LowerFirstKeepsName | packages/code-generator/src/playground.ts:26 | lower-casing the first character of a text of name characters without double underscores gives a variable name |
| Playground.SplitWithoutSeparators | packages/code-generator/src/playground.ts:18 | text without a dash or whitespace splits into itself alone |
| Playground.SplitAtSeparator | packages/code-generator/src/playground.ts:18 | the text before the first separator is one part, and the split starts afresh after it |
| Playground.SplitThreeWords | packages/code-generator/src/playground.ts:18 | three words between two separators split into exactly those three words |
| Playground.VarNameCharsNotSeparators | packages/code-generator/src/playground.ts:17-18 | name characters are neither separators nor whitespace |
| Playground.ReplaceInvalidKeeps | packages/code-generator/src/playground.ts:23 | a text of name characters is left unchanged by the replacement |
| Playground.CapitalizeName | packages/code-generator/src/playground.ts:19-26 | capitalising a variable name keeps it made of name characters without double underscores, and lower-casing its first character gives the name back |
| Playground.ValidVarNameIdempotent | packages/code-generator/src/playground.ts:14-27 | applying `validVarName` to one of its results gives the same text |
| Playground.VarNameFixed | packages/code-generator/src/playground.ts:14-27 | every variable name is its own `validVarName` |
| Playground.NameSplitsToItself | packages/code-generator/src/playground.ts:16-20 | trimming, splitting and joining a variable name gives its capitalised form |
| Playground.NameCapitalizedBack | packages/code-generator/src/playground.ts:23-26 | the replacement, the collapse and the lower-casing turn the capitalised name back into the name |
| Playground.CamelCaseThree | packages/code-generator/src/playground.ts:14-27 | three words of name characters between separators become the capitalised words joined, with a lower-case first letter |
| Playground.JoinCapitalizedChars | packages/code-generator/src/playground.ts:19-20 | capitalising and joining words of name characters gives name characters only |
| Playground.CamelCaseName | packages/code-generator/src/playground.ts:14-27 | `my-task name` becomes `myTaskName` |
| Playground.ProviderSnippet | packages/code-generator/src/playground.ts:75-81 | each provider's snippet is non-empty and does not start with `"`, so it never starts a new literal |
| Playground.EncodedRun | packages/code-generator/src/playground.ts:74 | the longest prefix of `[-A-Za-z0-9+/]` characters: all of it is encoded characters and the next character, if any, is not |
| Playground.PadRun | packages/code-generator/src/playground.ts:74 | the longest prefix of `=`: all of it is `=` and the next character, if any, is not |
| Playground.LiteralMatch | packages/code-generator/src/playground.ts:74 | a match of the literal pattern at the start of a text starts with `"` and spans at least two characters of it |
| Playground.ReplaceChangesIffLiteral | packages/code-generator/src/playground.ts:69-83 | with any provider's snippet, the substitution changes the text exactly when some position of it starts a quoted run of 50 or more encoded characters and at most three `=` |
| Playground.HasLiteralAfterFirst | packages/code-generator/src/playground.ts:73-74 | a text that does not start with a literal holds one exactly when its tail does |
| Playground.LiteralReplaced | packages/code-generator/src/playground.ts:73-82 | a quoted literal of at least 50 encoded characters and at most three `=` is replaced whole by the snippet |
| Playground.EncodedRunOf | packages/code-generator/src/playground.ts:74 | the encoded run of a body of encoded characters followed by a non-encoded character is the body |
| Playground.PadRunOf | packages/code-generator/src/playground.ts:74 | the `=` run of a run of `=` followed by another character is that run |
| Playground.ProviderOrDefault | packages/code-generator/src/playground.ts:95 | the provider is `FILE_SYSTEM` when none is given, and otherwise the given one |
| Playground.UsesProviderIffLiteral | packages/code-generator/src/playground.ts:100-106 | `isUsingFileDataProvider` is true exactly when the stringified input holds a long base 64 literal; when it holds none, the input code is that string unchanged |
| Playground.TaskFunctionName | packages/code-generator/src/playground.ts:100 | the task function name, from the task name or else from the task id, is a variable name |
| Base64.Sextet | packages/schema/src/atoms/buffer.ts:11 | every 6-bit value is written as a character of the alphabet of section 4 of RFC 4648 |
| Base64.SextetValue | packages/schema/src/atoms/buffer.ts:17 | every alphabet character stands for a 6-bit value whose character it is |
| Base64.SextetRoundTrip | packages/schema/src/atoms/buffer.ts:11-17 | reading back the character of a 6-bit value gives the value |
| Base64.Encode | packages/schema/src/atoms/buffer.ts:10-12 | the encoding of any bytes is a whole number of four-character quanta, and at least one for non-empty bytes |
| Base64.StrictFormEquivalent | packages/schema/src/atoms/buffer.ts:16 | the quantum-by-quantum `.base64()` check holds exactly when the length is a multiple of four and every character is from the alphabet except a last `=` or a last `==` |
| Base64.Quantum | packages/schema/src/atoms/buffer.ts:11 | three bytes become four alphabet characters |
| Base64.QuantumRoundTrip | packages/schema/src/atoms/buffer.ts:11-17 | a full quantum decodes to its three bytes, whether in the middle or at the end |
| Base64.EncodeOne | packages/schema/src/atoms/buffer.ts:11-17 | one byte encodes to two characters and `==`, which is strict and decodes to that byte |
| Base64.EncodeTwo | packages/schema/src/atoms/buffer.ts:11-17 | two bytes encode to three characters and `=`, which is strict and decodes to those bytes |
| Base64.EncodeLength | packages/schema/src/atoms/buffer.ts:10-12 | `n` bytes take `4 * ceil(n / 3)` characters |
| Base64.DecodeEncode | packages/schema/src/atoms/buffer.ts:10-17 | every encoding passes the strict check, and decoding it gives back the bytes |
| Base64.EncodeShort | packages/schema/src/atoms/buffer.ts:10-17 | the round trip for fewer than three bytes |
| Base64.EncodeMore | packages/schema/src/atoms/buffer.ts:10-17 | a full quantum in front of an encoding that round-trips gives an encoding that round-trips |
| Base64.ConcatQuantum | packages/schema/src/atoms/buffer.ts:16-17 | a full quantum in front of a strict text is strict, and decodes to its bytes followed by the text's |
| Base64.EncodeTest | packages/schema/src/atoms/buffer.test.ts:27-50 | the bytes of `test` encode to `dGVzdA==`, which is strict and decodes back to them |
| Base64.NotStrict | packages/schema/src/atoms/buffer.test.ts:52-54 | `invalid`, `invalidbase64` and `base64encodeddata` are not strict base 64 |
| BufferAtoms.Buffer | packages/schema/src/atoms/buffer.ts:3-8 | `BUFFER` accepts exactly a `Buffer` or an `ArrayBuffer`, and gives a `Buffer` of the same bytes; anything else fails the union |
| BufferAtoms.BufferToBase64 | packages/schema/src/atoms/buffer.ts:10-12 | accepted exactly for the two buffer kinds, giving a strict base 64 string; every other input fails as `BUFFER` does |
| BufferAtoms.Base64ToBuffer | packages/schema/src/atoms/buffer.ts:14-17 | accepted exactly for strict base 64 strings, giving a `Buffer`; every other input fails as `z.string().base64()` does |
| BufferAtoms.BufferToBase64Encodes | packages/schema/src/atoms/buffer.test.ts:27-37 | the text is the padded encoding of the bytes, the same for a `Buffer` and an `ArrayBuffer` holding them |
| BufferAtoms.BufferRoundTrip | packages/schema/src/atoms/buffer.ts:10-17 | decoding what `BUFFER_TO_BASE64` gives yields what `BUFFER` gives: the two transforms are inverse |
| BufferAtoms.NonBuffersRejected | packages/schema/src/atoms/buffer.test.ts:21-58 | a string is no buffer for `BUFFER` and `BUFFER_TO_BASE64`, and a number fails `BASE64_TO_BUFFER` as an invalid type |
| BufferAtoms.BufferFixtures | packages/schema/src/atoms/buffer.test.ts:9-54 | the `ArrayBuffer` of `test` becomes its `Buffer`; both kinds encode to `dGVzdA==`; `dGVzdA==` decodes to `test`; `invalid` fails the base 64 check |
| ZodValues.Fail | packages/schema/src/atoms/file.ts:28-43 | an issue raised by a schema on the value itself has an empty path |
| ZodValues.Str | packages/schema/src/atoms/image.ts:15 | `z.string()` accepts exactly strings, unchanged, and reports an invalid type otherwise |
| ZodValues.OptionalStr | packages/schema/src/atoms/image.ts:15 | `z.string().optional()` accepts exactly `undefined` and strings, unchanged |
| ZodValues.Enum | packages/schema/src/atoms/image.ts:5-12 | `z.enum(options)` accepts exactly the listed strings, unchanged |
| ZodValues.Base64String | packages/schema/src/atoms/buffer.ts:14-16 | `z.string().base64()` accepts exactly the strict base 64 strings, unchanged; a string outside the form fails the `base64` check |
| ZodValues.ObjectOf | packages/schema/src/atoms/image.ts:14-24 | a `z.object` that succeeds gives a record |
| ZodValues.ObjectOfSpec | packages/schema/src/atoms/image.ts:14-24 | `z.object(shape)` succeeds exactly when every key's schema does; the record then holds exactly the shape keys that the input has or whose parsed value is not `undefined`, with their parsed values, and drops every other input key; a failure is the first failing key's issue under that key |
| ZodValues.ObjectOfOk | packages/schema/src/atoms/image.ts:14-24 | the record is accepted exactly when every key's schema accepts |
| ZodValues.ObjectOfFields | packages/schema/src/atoms/image.ts:14-24 | each shape key is in the record exactly when the input has it or its parsed value is not `undefined`, and then holds that parsed value |
| ZodValues.ObjectOfKeys | packages/schema/src/atoms/image.ts:14-24 | every key of the record is a shape key: unknown keys are stripped |
| ZodValues.ObjectOfError | packages/schema/src/atoms/image.ts:14-24 | a failure is the issue of the first failing key, with that key put in front of its path |
| ZodValues.Union2 | packages/schema/src/atoms/buffer.ts:3-8 | `z.union` of two schemas gives the first that succeeds, and fails exactly when neither does; the failure is the model's single union issue, not zod's report |
| ZodValues.MediaShapeSpec | packages/schema/src/atoms/image.ts:14-24 | the shared File and Image record is accepted exactly when `name` is absent or a string, `content_type` is listed and `data` is accepted; the result has exactly `content_type`, `data` and, when the input has it, `name`, holding the input's `name` and `content_type` and the parsed `data` |
| ZodValues.MediaShapeKeys | packages/schema/src/atoms/image.ts:14-24 | a record with the three media keys, and only shape keys, has exactly those keys |
| DataUrl.TrailingPad | packages/schema/src/atoms/data-url.ts:5 | the number of `=` the text ends with: they are all `=` and the character before them is not |
| DataUrl.Pads | packages/schema/src/atoms/data-url.ts:5 | a run of `n` characters `=` |
| DataUrl.PayloadPatternOf | packages/schema/src/atoms/data-url.ts:5 | every non-empty body of `[-A-Za-z0-9+/]` followed by at most three `=` satisfies the payload test, which counts exactly those `=` |
| DataUrl.FirstIndex | packages/schema/src/atoms/data-url.ts:5 | the index of the first occurrence of a character, or -1 exactly when it does not occur |
| DataUrl.FirstIndexAfter | packages/schema/src/atoms/data-url.ts:5 | the first `;` after a media type without `;` is the one right after it |
| DataUrl.DataUrlPayloadAfter | packages/schema/src/atoms/data-url.ts:3-5 | `data:` and a media type without `;`, then `;`, match exactly when `base64,` and a payload follow, which is then the match's payload |
| DataUrl.DataUrlComplete | packages/schema/src/atoms/data-url.ts:3-5 | every string of the pattern's language matches, with its own payload |
| DataUrl.DataUrlParts | packages/schema/src/atoms/data-url.ts:3-5 | every matched string is `data:`, a media type without `;`, `;base64,` and a payload that fits the payload pattern, so only strings of the language match |
| DataUrl.PayloadShape | packages/schema/src/atoms/data-url.ts:5 | a matched payload is non-empty, made of `[-A-Za-z0-9+/]` and `=`, and ends with at most three `=` |
| DataUrl.PayloadHasNoComma | packages/schema/src/atoms/data-url.ts:5 | a payload holds no `,` |
| DataUrl.LastPieceIsPayload | packages/schema/src/atoms/data-url.ts:7-9 | the text after the last `base64,` of a matched string is the payload after its first `;base64,` |
| DataUrl.DataUrlToBase64Of | packages/schema/src/atoms/data-url.ts:7-9 | on a string of the language, the schema package's transform gives the payload, while the older one gives it only when it is strict base 64 and fails the `base64` check otherwise |
| DataUrl.DataUrlToBase64Spec | packages/schema/src/atoms/data-url.ts:3-9 | the schema package's variant accepts exactly the strings the pattern matches, and gives their payload without checking it |
| DataUrl.CheckedDataUrlToBase64Spec | src/schema/atoms/data-url.ts:6-17 | the older variant accepts exactly the matched strings whose payload is strict base 64, and gives that payload |
| DataUrl.CheckedPayloadIsStrict | src/schema/atoms/data-url.ts:15-17 | wherever the older variant succeeds it agrees with the newer one, and its result is strict base 64 |
| DataUrl.UncheckedPayloadAccepted | packages/schema/src/atoms/data-url.ts:5-9 | `data:text/plain;base64,invalidbase64` is accepted by the schema package's variant with payload `invalidbase64`, and rejected by the older one |
| DataUrl.InvalidPattern | packages/schema/src/atoms/data-url.ts:5 | `invalidbase64` fits the payload pattern but is not strict base 64 |
| DataUrl.DashPayload | packages/schema/src/atoms/data-url.ts:5-9 | a payload with `-`, outside the base 64 alphabet, is let through by the schema package's variant |
| DataUrl.DataUrlFixture | packages/schema/src/__tests__/atoms/data-url.test.ts:4-8 | `data:text/plain;base64,dGVzdA==` gives `dGVzdA==` in both variants |
| DataUrl.NotDataUrlFixtures | packages/schema/src/__tests__/atoms/data-url.test.ts:21-29 | `data:text/plain;charset=utf-8,some text` and `not a data URL` fail in both variants |
| FileAtom.FileContentTypes | packages/schema/src/atoms/file.ts:10-23 | the twelve content types, listed |
| FileAtom.Resolved | packages/schema/src/atoms/file.ts:40-42 | on a value that is not a promise, `resolved(schema)` succeeds exactly when the schema does, with its result |
| FileAtom.InputDataSpec | packages/schema/src/atoms/file.ts:40-42 | input `data` is accepted exactly when it is a strict base 64 string, a string the data URL pattern matches or a buffer; strict base 64 is kept as it is even when it would also match, a data URL gives its payload, and a buffer gives the base 64 of its bytes |
| FileAtom.FileInputSpec | packages/schema/src/atoms/file.ts:28-43 | `FILE_INPUT` accepts a record exactly when `name` is absent or a string, `content_type` is one of the twelve types and `data` is accepted; the result has exactly `content_type`, the normalised `data` and `name` when the input had it |
| FileAtom.FileOutputSpec | packages/schema/src/atoms/file.ts:48-61 | `FILE_OUTPUT` has the same `name` and `content_type` rules and accepts only strict base 64 text as `data`, which it decodes to bytes |
| FileAtom.FileRejects | packages/schema/src/atoms/file.ts:10-36 | an `image/svg` record, or one without `data`, fails on both sides |
| FileAtom.FileRejectsData | packages/schema/src/atoms/file.ts:41-60 | numeric data fails on input; buffer data fails on output |
| FileAtom.FileInputOutput | packages/schema/src/atoms/file.ts:28-61 | the output side accepts what the input side made of a buffer or strict base 64 data, and decodes it back to those bytes |
| FileAtom.CheckedInputDataIsStrict | src/schema/atoms/data-url.ts:15-17 | with the older data URL variant, accepted input `data` is always strict base 64 text |
| FileAtom.CheckedFileInputOutput | src/schema/atoms/data-url.ts:15-17 | with the older data URL variant, every record the input side accepts is accepted by the output side, with the same `name` and `content_type` and the decoded data |
| FileAtom.ColonNotStrict | packages/schema/src/atoms/buffer.ts:16 | a text whose fifth character is `:` is not strict base 64 |
| FileAtom.UncheckedDataUrlFile | packages/schema/src/atoms/file.ts:41 | as written, a PDF record with data `data:text/plain;base64,invalidbase64` is accepted on input as `{content_type, data: 'invalidbase64'}`, which the output side refuses; the older data URL variant refuses it on input |
| FileAtom.UncheckedData | packages/schema/src/atoms/file.ts:41 | that data URL passes the input side as `invalidbase64`, which is not strict base 64, and fails with the older variant |
| FileAtom.NonStrictUrlData | packages/schema/src/atoms/file.ts:41 | a non-base 64 string that the newer data URL variant accepts and the older refuses is accepted by the input side with that payload and refused by the checked input side |
| FileAtom.NonStrictDataFile | packages/schema/src/atoms/file.ts:28-61 | a record whose data the input side turns into text that is not strict base 64 passes the input side and fails the output side |
| ImageAtom.ImageInputSpec | packages/schema/src/atoms/image.ts:14-18 | `IMAGE_INPUT` accepts a record exactly when `name` is absent or a string, `content_type` is one of the six image types and `data` is a buffer; the result has exactly `content_type`, `data` as the base 64 text of the bytes and `name` when the input had it |
| ImageAtom.ImageOutputSpec | packages/schema/src/atoms/image.ts:20-24 | `IMAGE_OUTPUT` has the same `name` and `content_type` rules and accepts only strict base 64 text as `data`, which it decodes to bytes |
| ImageAtom.ImageRoundTrip | packages/schema/src/atoms/image.ts:14-24 | the output side accepts every record the input side produced, and gives it back with the original bytes as `data` |
| ImageAtom.SameButData | packages/schema/src/atoms/image.ts:14-24 | two media records with the same keys, `name` and `content_type` differ at most in `data` |
| ImageAtom.ImageRejects | packages/schema/src/atoms/image.ts:5-24 | `image/svg` fails on both sides; so does a record without `content_type` or without `data`; numeric or string data fails on input; buffer data, or the non-base 64 text `base64encodeddata`, fails on output |
| ImageAtom.TextDataInputRefused | packages/schema/src/__tests__/atoms/image.test.ts:4-21 | the two input fixtures with base 64 text as `data`, which the tests expect to be accepted, are refused by the code, whose input `data` is a buffer |
| ImageAtom.ImageNameOptional | packages/schema/src/__tests__/atoms/image.test.ts:73-80 | a PNG record without `name` is accepted on input with buffer data and on output with `dGVzdA==` |
| DatetimeLocalAtom.Day31Range | packages/schema/src/atoms/datetime-local.ts:5 | the day pattern of the 31-day months accepts exactly the two-digit numbers 1 to 31 |
| DatetimeLocalAtom.Day30Range | packages/schema/src/atoms/datetime-local.ts:5 | the day pattern of the 30-day months accepts exactly 1 to 30 |
| DatetimeLocalAtom.Day28Range | packages/schema/src/atoms/datetime-local.ts:5 | the February day pattern accepts exactly 1 to 28 |
| DatetimeLocalAtom.MonthRanges | packages/schema/src/atoms/datetime-local.ts:5 | the month patterns accept exactly the months of 31 days, the months of 30 days, and `02` |
| DatetimeLocalAtom.TwoDigitsDivisibleByFour | packages/schema/src/atoms/datetime-local.ts:5 | a two-digit number is a multiple of four exactly for the digit pairs the leap-year pattern lists |
| DatetimeLocalAtom.LeapYearHalves | packages/schema/src/atoms/datetime-local.ts:5 | a four-digit year is a Gregorian leap year exactly when its last two digits are a non-zero multiple of four, or are `00` and its first two digits are a multiple of four |
| DatetimeLocalAtom.LeapYearDigits | packages/schema/src/atoms/datetime-local.ts:5 | the leap-year pattern on four digits is the Gregorian rule of appendix C of RFC 3339 |
| DatetimeLocalAtom.ZodDateIsFullDate | packages/schema/src/atoms/datetime-local.ts:5 | `.date()` accepts exactly the `full-date` strings of section 5.6 of RFC 3339 whose day lies within its month, including 29 February of leap years only |
| DatetimeLocalAtom.HourRange | packages/schema/src/atoms/datetime-local.ts:6-9 | the hour pattern accepts exactly 00 to 23 |
| DatetimeLocalAtom.SixtyRange | packages/schema/src/atoms/datetime-local.ts:6-9 | the minute and second pattern accepts exactly 00 to 59 |
| DatetimeLocalAtom.ZodTimeIsPartialTime | packages/schema/src/atoms/datetime-local.ts:6-9 | `.time()` accepts exactly the `partial-time` strings of section 5.6 of RFC 3339 (no offset) whose second is not 60 |
| DatetimeLocalAtom.LeapSecondRefused | packages/schema/src/atoms/datetime-local.ts:6-9 | `23:59:60` is a `partial-time` that `.time()` refuses |
| DatetimeLocalAtom.DateString | packages/schema/src/atoms/datetime-local.ts:5 | `z.string().date()` accepts exactly the strings that are a `full-date`, unchanged |
| DatetimeLocalAtom.TimeString | packages/schema/src/atoms/datetime-local.ts:6-9 | `z.string().time()` accepts exactly the strings that are a `partial-time` without a leap second, unchanged |
| DatetimeLocalAtom.DatetimeLocalSpec | packages/schema/src/atoms/datetime-local.ts:3-14 | the record is accepted exactly when `date` is a `full-date`, `local_time` a `partial-time` without leap second and `timezone` a string; the result holds those three fields and nothing else |
| DatetimeLocalAtom.FieldsRequired | src/schema/atoms/datetime-local.ts:6-25 | a record missing any of the three fields is refused |
| DatetimeLocalAtom.AnyTimezone | src/schema/atoms/datetime-local.ts:24 | setting `timezone` to any string gives a record accepted exactly when its date and time are |
| DatetimeLocalAtom.FixtureDate | packages/schema/src/atoms/datetime-local.test.ts:6 | `2022-01-01` is a `full-date` |
| DatetimeLocalAtom.FixtureTime | packages/schema/src/atoms/datetime-local.test.ts:7 | `12:00:00` is a `partial-time` with second 0 |
| DatetimeLocalAtom.DatetimeFixtures | packages/schema/src/atoms/datetime-local.test.ts:4-49 | `{date: '2022-01-01', local_time: '12:00:00', timezone: 'UTC'}` is accepted as it is; with `date: 'invalid-date'`, with `local_time: 'invalid-time'` or without `timezone` it is refused |
| DatetimeLocalAtom.DatetimeLocalRegistered | packages/schema/src/atoms/datetime-local.ts:16-25 | the registry has `DatetimeLocal` with input and output name `datetimeLocal`, and that name is an extension |
| ZodToSchema.TableOfSpec | packages/schema/src/zodToSchema.ts:11-25 | a key is in a direction's table exactly when some registered definition has that key and names an extension for that direction, and it holds that extension |
| ZodToSchema.TableOfStep | packages/schema/src/zodToSchema.ts:14-24 | one more definition, with a key no earlier definition has, keeps the table's membership and contents law |
| ZodToSchema.TableKeysAreDefinitions | packages/schema/src/zodToSchema.ts:11-25 | the tables hold no key other than those of the registry |
| ZodToSchema.TablesIndependent | packages/schema/src/zodToSchema.ts:14-24 | a definition is in the input table exactly when its input name is an extension, and in the output table exactly when its output name is, independently of each other |
| ZodToSchema.BuildTables | packages/schema/src/zodToSchema.ts:8-25 | the loop fills the input and output tables with exactly the tables the specification defines |
| ZodToSchema.EntryPointsDifferInTable | packages/schema/src/zodToSchema.ts:37-43 | `inputZodToSchema` and `outputZodToSchema` pass the same path and target and differ only in taking the input or the output table |
| ZodToSchema.AtomTables | packages/schema/src/atoms/index.ts:4-12 | with the registry of the atoms index both tables are exactly `{DatetimeLocal: datetimeLocal}` |
| SchemaToZod.FindDefinition | packages/schema/src/schemaToZod.ts:19-22 | a found definition is in the registry with the key asked for, and nothing is found exactly when no definition has that key |
| SchemaToZod.DefinitionKeysDistinct | packages/schema/src/schemaToZod.test.ts:281-388 | the registry keys `Image`, `DatetimeLocal` and `File` are distinct |
| SchemaToZod.FindDefinitionFirst | packages/schema/src/schemaToZod.ts:19-22 | `find` answers the first definition with the key |
| SchemaToZod.OverrideCode | packages/schema/src/schemaToZod.ts:15-28 | the override answers code exactly when `$ref` is a non-empty string whose text after the last `/$defs/` is a registered key, and the code is then `z.<name>()` with the name of that definition for the direction |
| SchemaToZod.OverrideWithoutRef | packages/schema/src/schemaToZod.ts:18-27 | a node without a truthy `$ref` gets no override |
| SchemaToZod.InputOutputAgree | packages/schema/src/schemaToZod.ts:30-31 | the input and output overrides answer code for the same nodes and emit the input and the output name of the same definition |
| SchemaToZod.DefsPointerKey | packages/schema/src/schemaToZod.ts:21 | the key of `#/$defs/<k>` is `k` when `k` holds no `/$defs/` |
| SchemaToZod.WrittenDefinitionKey | packages/schema/src/zodToSchema.ts:29 | a definition `zodToSchema` writes under its `definitionPath` is named by a pointer from which `schemaToZod` reads the same key back, when the key holds no `/$defs/` |
| SchemaToZod.NoDefsPointerKey | packages/schema/src/schemaToZod.ts:21 | a pointer without `/$defs/` is its own key |
| SchemaToZod.NoDefsInAtomKeys | packages/schema/src/schemaToZod.test.ts:281-388 | no registry key holds `/$defs/` |
| SchemaToZod.NoSlashNoDefs | packages/schema/src/schemaToZod.ts:21 | a string without `/` holds no `/$defs/` |
| SchemaToZod.AtomOverride | packages/schema/src/schemaToZod.ts:15-28 | `#/$defs/<key>` of each registered atom gives the call of its extension for the direction |
| SchemaToZod.RegisteredAtoms | packages/schema/src/schemaToZod.test.ts:281-388 | `#/$defs/Image` gives `z.imageInput()` and `z.imageOutput()`, `#/$defs/DatetimeLocal` gives `z.datetimeLocal()` both ways, `#/$defs/File` gives `z.fileInput()` and `z.fileOutput()` |
| SchemaToZod.RegisteredImage | packages/schema/src/schemaToZod.test.ts:331-358 | `#/$defs/Image` gives `z.imageInput()` and `z.imageOutput()` |
| SchemaToZod.RegisteredDatetimeLocal | packages/schema/src/schemaToZod.test.ts:281-328 | `#/$defs/DatetimeLocal` gives `z.datetimeLocal()` in both directions |
| SchemaToZod.RegisteredFile | packages/schema/src/schemaToZod.test.ts:362-388 | `#/$defs/File` gives `z.fileInput()` and `z.fileOutput()` |
| SchemaToZod.UnregisteredDefinition | packages/schema/src/schemaToZod.test.ts:285 | `#/$defs/event`, a definition that is not an atom, gets no override in either direction |
| SchemaToZod.HydrateForZodQuiet | packages/schema/src/schemaToZod.ts:44 | with `{ keepRefs: true }` hydration prints no warning and can fail only with the `TypeError` of a pointer into a non-object |
| SchemaToZod.HydratedNodeKeepsOverride | packages/schema/src/schemaToZod.ts:18-24 | the copy hydration writes in place of a `$ref` node keeps its `$ref`, so the override answers for it what it answered for the original node |
| SchemaToZod.HydrateForZod | packages/schema/src/schemaToZod.ts:40-46 | the hydration before translation rewrites the document exactly as the resolution of its filtered pointers does, answers no warning, and fails only with a `TypeError` |
| JsonSchemaRefs.GetValueAtPathAppend | packages/schema/src/json-schema/json-schema-refs.ts:10-15 | walking one more key from a truthy value reached by a path is one more property access on it |
| JsonSchemaRefs.RootPointer | packages/schema/src/json-schema/json-schema-refs.ts:50-51 | the pointer `#` walks no key and names the root itself |
| JsonSchemaRefs.FindRefs | packages/schema/src/json-schema/json-schema-refs.ts:17-38 | the search returns the accumulator it is given, extended by exactly the edges the recursive specification `FindNode` gives, earlier targets collapsed |
| JsonSchemaRefs.FindFromExtends | packages/schema/src/json-schema/json-schema-refs.ts:22-36 | the search only appends edges and never changes the target pointer of an edge it was given |
| JsonSchemaRefs.FindNodeExtends | packages/schema/src/json-schema/json-schema-refs.ts:17-38 | a whole search from a node keeps the edges it was given, targets unchanged, at their places |
| JsonSchemaRefs.RecordRefCollapses | packages/schema/src/json-schema/json-schema-refs.ts:26-32 | after recording `(P, T)` the new edge is last, no edge has source `P` any more unless `T` is `P`, edges with source `P` now have source `T`, and all others are untouched |
| JsonSchemaRefs.ChildPointer | packages/schema/src/json-schema/json-schema-refs.ts:25 | the pointer `path/key` of an entry leads back, by its parent path and last key, to that entry |
| JsonSchemaRefs.FindRefsLocate | packages/schema/src/json-schema/json-schema-refs.ts:17-38 | every edge `findRefs(root, [], '#')` produces names, by its target pointer, a slot of the document holding a node with a truthy `$ref`, provided no key contains `/` |
| JsonSchemaRefs.SliceIndex | packages/schema/src/json-schema/json-schema-refs.ts:68-70 | `slice` clamps its index into the array and counts a negative index from the end |
| JsonSchemaRefs.LastNaming | packages/schema/src/json-schema/json-schema-refs.ts:73-84 | the index found is the last entry the fold keeps under the key, or -1 when there is none |
| JsonSchemaRefs.AssembleLookup | packages/schema/src/json-schema/json-schema-refs.ts:73-84 | the merged object has a key exactly when some kept entry is written under it, and holds the value of the last such entry |
| JsonSchemaRefs.AssembleWellFormed | packages/schema/src/json-schema/json-schema-refs.ts:73-84 | the merged object has no repeated key and holds only values of the document |
| JsonSchemaRefs.LastNamingPlain | packages/schema/src/json-schema/json-schema-refs.ts:73-84 | for an ordinary key the last entry written under it is its entry in a list of distinct keys |
| JsonSchemaRefs.PlainKeyInConcat | packages/schema/src/json-schema/json-schema-refs.ts:63-66 | folding `a + b`, an ordinary key is present when either has it and takes the value of `b` first |
| JsonSchemaRefs.AssemblePlain | packages/schema/src/json-schema/json-schema-refs.ts:73-84 | folding entries with distinct keys keeps every ordinary key with its value |
| JsonSchemaRefs.AssembleAppendPlain | packages/schema/src/json-schema/json-schema-refs.ts:73-84 | folding `a + b`, an ordinary key of `b` takes its value from `b` and any other comes from the fold of `a` |
| JsonSchemaRefs.MergeFavored | packages/schema/src/json-schema/json-schema-refs.ts:62-66 | under `favorTarget` an ordinary key keeps the target's value and under `favorSource` takes the source's; the merged object has exactly the ordinary keys of both |
| JsonSchemaRefs.PlainKeyInConcat3 | packages/schema/src/json-schema/json-schema-refs.ts:67-71 | folding `a + b + c`, an ordinary key takes the value of the last part holding it |
| JsonSchemaRefs.LayoutInPlace | packages/schema/src/json-schema/json-schema-refs.ts:61-71 | with `merge: true` the source's entries take the place of the target's first `$ref` entry |
| JsonSchemaRefs.MergeInPlace | packages/schema/src/json-schema/json-schema-refs.ts:58-84 | with `merge: true` on a target `pre, $ref, post`, the source overrides the keys of `pre` and is overridden by the keys of `post`, and the merged object has exactly the keys of both |
| JsonSchemaRefs.MergeKeepsPointer | packages/schema/src/json-schema/json-schema-refs.ts:73-84 | with `keepRefs` truthy and `merge` not `favorSource`, the merged object keeps the target's own pointer under the marker key when the source writes nothing there |
| JsonSchemaRefs.MergeDropsRefs | packages/schema/src/json-schema/json-schema-refs.ts:75 | with `keepRefs` falsy no `$ref` survives a merge |
| JsonSchemaRefs.ResolveStopsAtFailure | packages/schema/src/json-schema/json-schema-refs.ts:96-97 | once an edge throws, the later edges change nothing |
| JsonSchemaRefs.ResolvePrefixStep | packages/schema/src/json-schema/json-schema-refs.ts:49-99 | the run over one more edge is the previous run continued by that edge, or the previous run when it had failed |
| JsonSchemaRefs.WriteObject | packages/schema/src/json-schema/json-schema-refs.ts:73 | writing an object literal into a slot allocates a fresh node and points the slot at it |
| JsonSchemaRefs.ResolveEdgeOn | packages/schema/src/json-schema/json-schema-refs.ts:49-98 | one iteration on the document does what the specification `ResolveEdge` says, keeps the document well formed, and writes nothing when the edge fails or finds no source |
| JsonSchemaRefs.ResolveNext | packages/schema/src/json-schema/json-schema-refs.ts:94-98 | one iteration adds a warning under `'warn'`, throws under `'throw'`, passes silently otherwise, as `Continue` specifies |
| JsonSchemaRefs.ResolveRefs | packages/schema/src/json-schema/json-schema-refs.ts:40-101 | the loop rewrites the document as the specification `Resolve` over all edges does, and answers the warnings printed or what was thrown |
| JsonSchemaRefs.GetValueAtPathInHeap | packages/schema/src/json-schema/json-schema-refs.ts:10-15 | a walk from a value of a closed document reaches a value of the document |
| JsonSchemaRefs.AllocateValid | packages/schema/src/json-schema/json-schema-refs.ts:73 | allocating an object whose values are in the document keeps the document well formed |
| JsonSchemaRefs.AssignValid | packages/schema/src/json-schema/json-schema-refs.ts:92 | assigning a value of the document to a slot keeps it well formed |
| JsonSchemaRefs.ResolveEdgeValid | packages/schema/src/json-schema/json-schema-refs.ts:49-98 | every edge that writes keeps the document well formed with the root still in it |
| JsonSchemaRefs.MergeValid | packages/schema/src/json-schema/json-schema-refs.ts:58-84 | the merged object an edge writes keeps the document well formed |
| JsonSchemaRefs.KeepValid | packages/schema/src/json-schema/json-schema-refs.ts:85-90 | the marked copy an edge writes under `keepRefs` keeps the document well formed |
| JsonSchemaRefs.ResolveValid | packages/schema/src/json-schema/json-schema-refs.ts:49-100 | the whole run keeps the document well formed with the root in it |
| JsonSchemaRefs.ResolveAliases | packages/schema/src/json-schema/json-schema-refs.ts:91-92 | without `merge` and `keepRefs` the slot receives the very source object, so both pointers alias it; nothing is allocated and no other property changes |
| JsonSchemaRefs.ResolveMerges | packages/schema/src/json-schema/json-schema-refs.ts:58-84 | with `merge` on and both objects, the slot receives a new object distinct from the source, holding the fold of the layout; only the slot changes |
| JsonSchemaRefs.AllocateFacts | packages/schema/src/json-schema/json-schema-refs.ts:73 | an allocation adds one node and changes only the slot it writes |
| JsonSchemaRefs.ResolveKeepsRef | packages/schema/src/json-schema/json-schema-refs.ts:85-90 | with `keepRefs` truthy and no `merge`, the slot receives a new copy of the source whose marker key holds the slot's own pointer and whose other keys are the source's |
| JsonSchemaRefs.ResolveUnresolvable | packages/schema/src/json-schema/json-schema-refs.ts:94-98 | a source that leads nowhere leaves the document alone and adds a warning under `'warn'`, throws under `'throw'`, and changes nothing under `'skip'` or with `unresolvable` absent |
| JsonSchemaRefs.ResolveQuiet | packages/schema/src/json-schema/json-schema-refs.ts:94-98 | under `'skip'` or with `unresolvable` absent no warning is printed and the only failure is a `TypeError` |
| JsonSchemaRefs.FilterRefsSpec | packages/schema/src/json-schema/json-schema-refs.ts:117-119 | the filtered edges are exactly the edges the predicate accepts |
| JsonSchemaRefs.HydrateRefs | packages/schema/src/json-schema/json-schema-refs.ts:110-122 | hydration of an object resolves in place exactly the edges `findRefs` finds from the root and the filter keeps; a root that is not an object is answered as it is |
| JsonDoc.IndexOfKey | packages/schema/src/json-schema/json-schema-refs.ts:61 | `findIndex` answers the first entry with the key, or -1 when no entry has it |
| JsonDoc.Put | packages/schema/src/json-schema/json-schema-refs.ts:92 | after `obj[k] = v` the key holds `v`, every other key keeps its value, an existing key keeps its place, a new key is appended (insertion order, array-index keys included), and keys stay distinct |
| JsonDoc.PutEntries | packages/schema/src/json-schema/json-schema-refs.ts:92 | an assignment brings in no entry but the one written |
| JsonDoc.PutSame | packages/schema/src/json-schema/json-schema-refs.ts:92 | writing back the value a key already holds changes nothing |
| JsonDoc.LookupConcat | packages/schema/src/json-schema/json-schema-refs.ts:76-81 | a lookup in `a + b` finds the entry of `a` first |
| JsonDoc.HasKeyConcat | packages/schema/src/json-schema/json-schema-refs.ts:76-81 | `k` is a key of `a + b` exactly when it is a key of `a` or of `b` |
| JsonDoc.LookupDistinct | packages/schema/src/json-schema/json-schema-refs.ts:59 | in an object each entry is found under its own key |
| JsonDoc.LookupInHeap | packages/schema/src/json-schema/json-schema-refs.ts:51 | a property of a node of a closed document is a value of the document |
| JsonDoc.Document.constructor | packages/schema/src/json-schema/json-schema-refs.ts:110-114 | a document holds the nodes it is given and is well formed |
| JsonDoc.Document.NewObject | packages/schema/src/json-schema/json-schema-refs.ts:76-83 | an object literal is a new node at the first unused identity, and no other node changes; a valid document stays valid when the literal's values are in it and its keys are distinct |
| JsonDoc.Document.SetProperty | packages/schema/src/json-schema/json-schema-refs.ts:92 | `obj[k] = v` changes that one node as `Put` says and nothing else; a valid document stays valid when `v` is in it |
| SanitizeJsonSchema.LocalHintsSpec | packages/schema/src/json-schema/sanitize-json-schema.ts:4-23 | an object without `type` gains `type: 'object'` when it has an object keyword, else `type: 'array'` when it has an array keyword, else nothing; an object with `type` is untouched, and no other key changes |
| SanitizeJsonSchema.LocalHintsIdempotent | packages/schema/src/json-schema/sanitize-json-schema.ts:4-23 | giving an object its hint twice is giving it once |
| SanitizeJsonSchema.LocalHintsEdges | packages/schema/src/json-schema/sanitize-json-schema.ts:12 | the hint adds no object reference and keeps keys distinct |
| SanitizeJsonSchema.SanitizeNode | packages/schema/src/json-schema/sanitize-json-schema.ts:3-32 | the traversal keeps the document acyclic and holds the same nodes |
| SanitizeJsonSchema.Sanitize | packages/schema/src/json-schema/sanitize-json-schema.ts:3-32 | the method changes the document in place exactly as the specification `SanitizeNode` says, allocates nothing, and keeps the document well formed |
| SanitizeJsonSchema.SanitizeEntry | packages/schema/src/json-schema/sanitize-json-schema.ts:25-29 | one turn of the loop sanitizes the child object and writes it back under its key, leaving what remains of the loop to do the same |
| SanitizeJsonSchema.SanitizeNodeSpec | packages/schema/src/json-schema/sanitize-json-schema.ts:3-32 | exactly the objects reachable from the root get their hint and every other object is left as it was |
| SanitizeJsonSchema.SanitizeIdempotent | packages/schema/src/json-schema/sanitize-json-schema.ts:3-32 | sanitizing a sanitized document changes nothing |
| SanitizeJsonSchema.SanitizeOnlyAddsType | packages/schema/src/json-schema/sanitize-json-schema.ts:3-32 | every key but `type` keeps its value; objects with a `type`, without a hint keyword or out of reach are untouched; reachable objects without `type` get the type their keywords imply |
| SanitizeJsonSchema.SanitizeValid | packages/schema/src/json-schema/sanitize-json-schema.ts:3-32 | sanitizing keeps the document well formed and every object reference where it was |
| SanitizeJsonSchema.OnlyRootHinted | packages/schema/src/json-schema/sanitize-json-schema.ts:3-32 | from a root with an object keyword and no `type`, where every other object has a `type` or no hint keyword, only the root changes, by gaining `type: 'object'` |
| SanitizeJsonSchema.CommentSchemaSanitized | packages/schema/src/json-schema/sanitize-json-schema.test.ts:5-34 | the comment schema of the test gains `type: 'object'` at its root and nothing else changes |
| SanitizeJsonSchema.PropertyNamedItems | packages/schema/src/json-schema/sanitize-json-schema.ts:13-27 | a `properties` map holding a property named `items` is itself given `type: 'array'`, since the walk visits every object |
| JsonSchemaRefsExamples.SiblingRefs | packages/schema/src/json-schema/json-schema-refs.test.ts:10-31 | on `{ ett: {$ref: '#/två'}, två: {$ref: '#/tre'}, tre: {succe: true} }` `findRefs` gives `[['#/ett', '#/tre'], ['#/två', '#/tre']]` |
| JsonSchemaRefsExamples.NestedRefs | packages/schema/src/json-schema/json-schema-refs.test.ts:33-56 | on the nested fixture `findRefs` gives `[['#/a/b', '#/tre'], ['#/a/c', '#/tre']]` |
| JsonSchemaRefsExamples.CircularRefs | packages/schema/src/json-schema/json-schema-refs.test.ts:58-72 | on `{ a: { b: {$ref: '#'} } }` `findRefs` gives `[['#/a/b', '#']]` |
| JsonSchemaRefsExamples.LeafFind | packages/schema/src/json-schema/json-schema-refs.ts:22-24 | a node holding no object adds no edge |
| JsonSchemaRefsExamples.TopPointer | packages/schema/src/json-schema/json-schema-refs.ts:50-54 | `#/k` walks the key `k` of the root, and its slot is `k` of the root itself |
| JsonSchemaRefsExamples.NestedPointer | packages/schema/src/json-schema/json-schema-refs.ts:50-54 | `#/a/b` walks `a` then `b`, and its slot is `b` of `a` |
| JsonSchemaRefsExamples.SiblingAlias | packages/schema/src/json-schema/json-schema-refs.test.ts:76-97 | resolving the sibling edges without options leaves `ett`, `två` and `tre` the very same object, with no warning |
| JsonSchemaRefsExamples.AliasEdge | packages/schema/src/json-schema/json-schema-refs.ts:91-92 | an edge between two keys of the root without `merge` or `keepRefs` makes the slot the source object and keeps everything else |
| JsonSchemaRefsExamples.CircularAlias | packages/schema/src/json-schema/json-schema-refs.test.ts:124-139 | resolving `#/a/b` to `#` makes `obj.a.b` the root object itself |
| JsonSchemaRefsExamples.ReplacingRef | packages/schema/src/json-schema/json-schema-refs.test.ts:193-217 | with `{ merge: true, keepRefs: 'pelle' }` on the nested fixture, `a.b` becomes exactly `{ succe: true, pelle: '#/a/c' }` and `a.c` exactly `{ succe: true, pelle: '#/tre' }` |
| JsonSchemaRefsExamples.PelleFold | packages/schema/src/json-schema/json-schema-refs.ts:67-84 | merging `{ succe: true }` into `{ $ref: p }` under `keepRefs: 'pelle'` gives `{ succe: true, pelle: p }` |
| JsonSchemaRefsExamples.CircularMerge | packages/schema/src/json-schema/json-schema-refs.test.ts:219-236 | merging the root into `a.b` with `{ merge: true }` gives `a.b` the root's `root`, keeps its own `flag` and drops its `$ref` |
| JsonSchemaRefsExamples.CircularMergeFold | packages/schema/src/json-schema/json-schema-refs.ts:67-84 | the fold of that merge holds `root: 'yes'` and `flag: 'yep'` and no `$ref` |
| JsonSchemaRefsExamples.FilterFind | packages/schema/src/json-schema/json-schema-refs.test.ts:240-255 | on the filter fixture, `findRefs` then the filter `startsWith('#/resolveThis')` keep only `['#/resolveThis', '#/source']` |
| JsonSchemaRefsExamples.FilterResolve | packages/schema/src/json-schema/json-schema-refs.test.ts:253-261 | resolving the kept edge makes `resolveThis` the `source` object and leaves `notThis` as `{ $ref: '#/source' }` |
| JsonSchemaRefsExamples.HydrateFilter | packages/schema/src/json-schema/json-schema-refs.test.ts:240-262 | hydration with the filter resolves only `resolveThis`, prints no warning and leaves `notThis` with its `$ref` |
| JsonSchemaRefsExamples.NestedAlias | packages/schema/src/json-schema/json-schema-refs.test.ts:99-122 | resolving the nested edges without options makes `a.b` and `a.c` the very object `tre`, with no warning |
| JsonSchemaRefsExamples.NestedMerge | packages/schema/src/json-schema/json-schema-refs.test.ts:168-191 | with `{ merge: true }` `a.b`, `a.c` and `tre` all hold exactly `{ succe: true }` |
| JsonSchemaRefsExamples.NestedMergeRun | packages/schema/src/json-schema/json-schema-refs.ts:58-84 | under any `merge: true` options the nested edges are both written, each slot receives the fold of its own entries with `tre`'s, and `tre` is left as it was |
| JsonSchemaRefsExamples.PlainFold | packages/schema/src/json-schema/json-schema-refs.ts:67-84 | merging `{ succe: true }` into `{ $ref: p }` without `keepRefs` gives exactly `{ succe: true }` |
| JsonSchemaRefsExamples.ResolvePair | packages/schema/src/json-schema/json-schema-refs.ts:40-99 | two edges that are both written make a run with the second store, no warning and no failure |
| Strings.SplitWithoutSeparator | packages/schema/src/schemaToZod.ts:21 | without an occurrence of the separator `split` yields the whole string as its one piece |
| Strings.LastPieceWithoutSeparator | packages/schema/src/schemaToZod.ts:21 | `split(sep).pop()` of a string without `sep` is the string itself |
| Strings.NoOccurrenceOfChar | packages/schema/src/json-schema/json-schema-refs.ts:50 | a string without the character has no occurrence of it |
| Strings.SplitAppend | packages/schema/src/json-schema/json-schema-refs.ts:50-54 | splitting `p + c + k` on the character `c`, with `k` free of `c`, gives the pieces of `p` followed by `k` |
| Strings.SplitPathAppend | packages/schema/src/json-schema/json-schema-refs.ts:25 | `(p + '/' + k).split('/')` is `p.split('/')` followed by `k` when `k` holds no `/` |
| Strings.SplitLastAfter | packages/schema/src/schemaToZod.ts:21 | the last piece of splitting `pre + sep + rest` is `rest` when the last character of `sep` occurs neither earlier in `sep` nor in `rest` |
| Strings.LastPieceAfter | packages/schema/src/schemaToZod.ts:21 | `split(sep).pop()` of `pre + sep + rest` is `rest` under the same condition |
| Strings.TrimStart | src/api/utils/getRetryAfter.ts:21 | the result is a suffix of the input that does not start with whitespace, and every character removed is whitespace |
| Strings.TrimEnd | src/api/utils/getRetryAfter.ts:21 | the result is a prefix of the input that does not end with whitespace, and every character removed is whitespace |
| Strings.TrimNoWhitespace | src/api/utils/getRetryAfter.ts:21 | `trim` leaves a string without whitespace as it is |
| Strings.TrimKeepsEnds | src/api/utils/getRetryAfter.ts:21 | `trim` leaves a string that starts and ends with a non-whitespace character as it is |

## Left out

- Playground.Capitalize: upper-cases only ASCII letters. JavaScript's `toUpperCase` uses full Unicode case mapping, so `ß`, `ſ`, `ı` and the `ﬀ`/`ﬁ` ligatures differ: `ßeta` gives `sSeta` in JavaScript and `_eta` in the model. The properties of `validVarName`'s results still hold of the JavaScript results.
- JsonDoc.Put: appends every new key, in insertion order. JavaScript lists canonical array-index keys (`"0"`, `"1"`, …) first and in ascending order, in `Object.entries`, spreads and assignments. The order of such keys in merged objects, and in the walks of `findRefs` and `sanitize`, is therefore not modelled.
- RetryAfter.SecondsOfDigits: gives the exact decimal value of a digit run. JavaScript's `Number()` rounds runs above 2^53 to a double, and gives `Infinity` for runs of about 309 or more digits, which then fall through to the date branch.
- RetryAfter.DelaySecondsHeader: states the digits' value times 1000, so it inherits the same gap for very long digit runs.
- RetriableFetch.RetrySettings: holds `retryDelay` and `maxRetryDelay` as integers, and `retries` as an integer or `null`. fetch-retry refuses a `retries` that is not a non-negative integer with an `ArgumentError` before any request. The model covers this for a negative `retries` and for the explicit `null` that the destructuring of `fetch.ts` keeps (`RetriableFetch.RetriesAccepted`). A fractional `retries`, which is refused the same way, cannot be expressed. fetch-retry's own source is not part of this model.
- JsValues.Json and JsonDoc.Val: numbers are integers. Fractional numbers, `NaN` and `-0` in bodies and schema documents cannot be expressed, so a fractional `error.code` is not printed as JavaScript prints it.
- `jsonSchemaToZod` and `zodToJsonSchema`, the library translators. Only the override and the definition tables that are handed to them are modelled.
- zod's error reporting. A failed parse is one error value, not zod's list of issues with their paths and messages.
- ZodValues.Union2: reports an invalid-union issue whenever both options fail. In zod 3, a string check that fails (`.base64()`, `.regex()`) leaves a dirty result rather than an aborted one, and `z.union` then reports the issues of the first dirty option. For example, the `data` union of `FILE_INPUT` on the string `"abc"` reports the `base64` issue. Which issue is reported is not modelled; whether the union succeeds is.
- The `resolved` promise combinator of `packages/schema/src/atoms/promise.ts`, because it is asynchronous. File and image `data` is modelled as an already resolved value.
- Streaming, async iterators, the HTTP clients and their middlewares, `getEnv`, and the `WorkflowAI` clients. They are orchestration of remote calls and I/O.
- `packages/api/src/Error.ts`, because its message depends on the formatting of `JSON.stringify`.
- `Date.now` and `Date.parse`. They become parameters: a clock reading `now` and an abstract date parser. In the retry driver, requests take no time.
- RetryAfter.Seconds: covers only what `Number()` does with surrounding whitespace, an optional sign and decimal digits. Decimal fractions, exponents, hexadecimal and `Infinity` are treated as not a number.
- Http.HeaderGet: lowers only ASCII letters when it folds a header name. Header names are ASCII tokens.
- `JSON.stringify` in the playground helpers is a parameter, and `beautifyTypescript` is left out, because both are library formatting.
- The playground templates other than the file-data provider snippet and the task function name, because they are fixed text.
- JsonSchemaRefs.FindRefs: requires a `Ranked` heap, where every child has a smaller id than its parent. On a cyclic document the source recurses forever.
- SanitizeJsonSchema.Sanitize: requires a `Ranked` heap, for the same reason.
- The `ErrorResponse` of `packages/api/src/ErrorResponse.ts` is modelled once. Its branches match `src/api/errorResponse.ts`. `ErrorResponse.ExtractErrorHasError` cites it.
- `definitions.ts`, `atoms/index.ts`, `zod.ts` and `extensions.ts`, because they hold no logic. They are constant tables in `registry.dfy`.
- `console.warn` becomes the list of warned edges returned by the run.
- The sibling fixture of the merging resolver (`json-schema-refs.test.ts:143-166`) is not a lemma of its own. It is the same fold as the nested one, covered by `JsonSchemaRefs.MergeInPlace` and `JsonSchemaRefsExamples.NestedMerge`.
- JsonSchemaRefs.FindRefsLocate: stated only for documents whose keys contain no `/`. Other keys make the recorded pointers ambiguous.
- The sanitize tests other than the comment schema are not lemmas of their own. `SanitizeJsonSchema.SanitizeOnlyAddsType` and `SanitizeJsonSchema.SanitizeNodeSpec` state their behaviour for every document.
- Tests that target other snapshots, such as the `url` form of files and images, and array-shaped definitions, because the modelled code does not have them.
- Property access on strings and other primitives is left out: it yields `undefined` in the model. A pointer that walks into a string (its `length` or an index) therefore finds nothing, where JavaScript would find a value.
- JsonDoc.Lookup: sees own properties only. JavaScript's `obj[key]` also finds the properties inherited from `Object.prototype`. For `{a: {$ref: '#/constructor'}}`, JavaScript finds the truthy function `Object` and assigns it to `a`; the model finds `Undef` and takes the unresolvable branch. `#/__proto__`, `#/toString` and the other inherited names behave the same way.

## Findings

| source | as written | input that shows it | evidently intended | confidence | as-written member | corrected member |
|---|---|---|---|---|---|---|
| packages/schema/src/atoms/data-url.ts:5-9 | only the pattern `[-A-Za-z0-9+/]+={0,3}` gates the payload, so a payload that is not strict base 64 is passed on | `data:text/plain;base64,invalidbase64` yields `invalidbase64` (the test at packages/schema/src/__tests__/atoms/data-url.test.ts:16-19 expects a rejection) | the payload is re-checked as strict base 64, as src/schema/atoms/data-url.ts:15-17 does | high, not executed | DataUrl.UncheckedPayloadAccepted | DataUrl.CheckedPayloadIsStrict |
