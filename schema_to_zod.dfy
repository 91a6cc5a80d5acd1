/**
 * The atom hook of the JSON-Schema-to-zod translation: the parser
 * override that turns a `$ref` to a registered definition into a call of
 * the matching zod extension, and the hydration that runs first. The
 * translator itself is a library and is not modelled; its output is the
 * override's answer where the override answers.
 */
module SchemaToZod {
  import opened Wrappers
  import opened Strings
  import opened JsonDoc
  import opened JsonSchemaRefs
  import opened Registry
  import ZodToSchema

  /** `ref.split('/$defs/').pop()`: the text after the last `/$defs/` the scan used. */
  function DefinitionKey(ref: string): string {
    LastPiece(ref, "/$defs/")
  }

  /** `definitions.find(d => d.jsonSchemaDefinitionKey === key)`. */
  function FindDefinition(defs: seq<Definition>, key: string): (r: Option<Definition>)
    ensures r.Some? ==> r.value in defs && r.value.jsonSchemaDefinitionKey == key
    ensures r.None? <==> forall d :: d in defs ==> d.jsonSchemaDefinitionKey != key
    decreases |defs|
  {
    if |defs| == 0 then None
    else if defs[0].jsonSchemaDefinitionKey == key then Some(defs[0])
    else FindDefinition(defs[1..], key)
  }

  /**
   * What the override answers for one schema node: zod code to use in
   * place of the structural translation, no override, or the `TypeError`
   * of calling `split` on a truthy `$ref` that is not a string.
   */
  datatype Override = Code(text: string) | NoOverride | SplitTypeError

  /** `makeParserOverride(type)(schema)` on the entries of a schema node. */
  function ParserOverride(dir: Direction, schema: Entries): Override {
    var ref := Lookup(schema, "$ref");
    if !Truthy(ref) then NoOverride
    else if !ref.Str? then SplitTypeError
    else
      match FindDefinition(OverrideDefinitions(), DefinitionKey(ref.s))
      case Some(d) => Code("z." + ZodName(d, dir) + "()")
      case None => NoOverride
  }

  /** `inputParserOverride` and `outputParserOverride`. */
  function InputParserOverride(schema: Entries): Override {
    ParserOverride(Input, schema)
  }

  function OutputParserOverride(schema: Entries): Override {
    ParserOverride(Output, schema)
  }

  // ---------------------------------------------------------------------
  // Properties of the override

  /** The registry keys are distinct, so at most one definition can match. */
  lemma DefinitionKeysDistinct()
    ensures DistinctDefinitionKeys(OverrideDefinitions())
  {
  }

  /** `find` answers the first definition with the key. */
  lemma {:induction false} FindDefinitionFirst(defs: seq<Definition>, key: string, i: nat)
    requires i < |defs| && defs[i].jsonSchemaDefinitionKey == key
    requires forall j :: 0 <= j < i ==> defs[j].jsonSchemaDefinitionKey != key
    ensures FindDefinition(defs, key) == Some(defs[i])
    decreases i
  {
    if i > 0 {
      FindDefinitionFirst(defs[1..], key, i - 1);
    }
  }

  /**
   * The override answers code exactly when `$ref` is a non-empty string
   * whose definition key names a registered atom, and then the code is
   * `z.<name>()` with that atom's name for the direction.
   */
  lemma OverrideCode(dir: Direction, schema: Entries)
    ensures ParserOverride(dir, schema).Code? <==>
      && Lookup(schema, "$ref").Str? && Lookup(schema, "$ref").s != ""
      && exists d :: d in OverrideDefinitions() && d.jsonSchemaDefinitionKey == DefinitionKey(Lookup(schema, "$ref").s)
    ensures ParserOverride(dir, schema).Code? ==>
      var d := FindDefinition(OverrideDefinitions(), DefinitionKey(Lookup(schema, "$ref").s)).value;
      && d in OverrideDefinitions()
      && d.jsonSchemaDefinitionKey == DefinitionKey(Lookup(schema, "$ref").s)
      && ParserOverride(dir, schema).text == "z." + ZodName(d, dir) + "()"
  {
  }

  /** A node without a (truthy) `$ref` is left to the structural translation. */
  lemma OverrideWithoutRef(dir: Direction, schema: Entries)
    requires !HasKey(schema, "$ref") || !Truthy(Lookup(schema, "$ref"))
    ensures ParserOverride(dir, schema) == NoOverride
  {
  }

  /** The two overrides find the same definition and differ only in the name they emit. */
  lemma InputOutputAgree(schema: Entries)
    ensures InputParserOverride(schema).Code? <==> OutputParserOverride(schema).Code?
    ensures InputParserOverride(schema).NoOverride? <==> OutputParserOverride(schema).NoOverride?
    ensures InputParserOverride(schema).Code? ==>
      var d := FindDefinition(OverrideDefinitions(), DefinitionKey(Lookup(schema, "$ref").s)).value;
      && InputParserOverride(schema).text == "z." + d.input + "()"
      && OutputParserOverride(schema).text == "z." + d.output + "()"
  {
  }

  /** `'#/$defs/' + k` has the definition key `k` when `k` holds no `/$defs/`. */
  lemma DefsPointerKey(k: string)
    requires NoOccurrence(k, "/$defs/")
    ensures DefinitionKey("#/$defs/" + k) == k
  {
    var sep := "/$defs/";
    var s := "#/$defs/" + k;
    assert s[..|sep|] != sep by { assert s[0] == '#'; }
    assert s[1..] == sep + k;
    assert s[1..][..|sep|] == sep;
    assert s[1..][|sep|..] == k;
    SplitWithoutSeparator(k, sep, "");
    assert "" + k == k;
    assert SplitFrom(s[1..], sep, "#") == ["#"] + [k];
    assert "" + [s[0]] == "#";
  }

  /**
   * A definition `zodToSchema` writes under its `definitionPath` is named
   * by `#/<definitionPath>/k`, and `schemaToZod` reads `k` back from that
   * pointer when `k` holds no `/$defs/`.
   */
  lemma WrittenDefinitionKey(definitions: ZodToSchema.Table, k: string)
    requires NoOccurrence(k, "/$defs/")
    ensures DefinitionKey("#/" + ZodToSchema.ZodToSchemaOptions(definitions).definitionPath + "/" + k) == k
  {
    assert "#/" + ZodToSchema.ZodToSchemaOptions(definitions).definitionPath + "/" + k == "#/$defs/" + k;
    DefsPointerKey(k);
  }

  /** A pointer without `/$defs/` is its own key, so `#/definitions/...` names no atom. */
  lemma NoDefsPointerKey(ref: string)
    requires NoOccurrence(ref, "/$defs/")
    ensures DefinitionKey(ref) == ref
  {
    LastPieceWithoutSeparator(ref, "/$defs/");
  }

  lemma NoDefsInAtomKeys()
    ensures NoOccurrence("Image", "/$defs/")
    ensures NoOccurrence("DatetimeLocal", "/$defs/")
    ensures NoOccurrence("File", "/$defs/")
  {
    NoSlashNoDefs("Image");
    NoSlashNoDefs("DatetimeLocal");
    NoSlashNoDefs("File");
  }

  /** A string without `/` holds no `/$defs/`. */
  lemma NoSlashNoDefs(s: string)
    requires '/' !in s
    ensures NoOccurrence(s, "/$defs/")
  {
    forall i: nat ensures !HasAt(s, "/$defs/", i) {
      if i + 7 <= |s| {
        assert s[i] in s;
        assert s[i..i + 7][0] == s[i];
      }
    }
  }

  /** `'#/$defs/' + key` of a registered atom gives the call of its extension. */
  lemma AtomOverride(i: nat, dir: Direction)
    requires i < |OverrideDefinitions()|
    ensures var d := OverrideDefinitions()[i];
      ParserOverride(dir, [("$ref", Str("#/$defs/" + d.jsonSchemaDefinitionKey))]) == Code("z." + ZodName(d, dir) + "()")
  {
    var d := OverrideDefinitions()[i];
    NoDefsInAtomKeys();
    DefsPointerKey(d.jsonSchemaDefinitionKey);
    DefinitionKeysDistinct();
    FindDefinitionFirst(OverrideDefinitions(), d.jsonSchemaDefinitionKey, i);
  }

  /**
   * The translations of the test suite: `'#/$defs/Image'` gives
   * `z.imageInput()` and `z.imageOutput()`, `'#/$defs/DatetimeLocal'`
   * gives `z.datetimeLocal()` both ways, and `'#/$defs/File'` gives
   * `z.fileInput()` and `z.fileOutput()`.
   */
  lemma RegisteredAtoms()
    ensures InputParserOverride([("$ref", Str("#/$defs/Image"))]) == Code("z.imageInput()")
    ensures OutputParserOverride([("$ref", Str("#/$defs/Image"))]) == Code("z.imageOutput()")
    ensures InputParserOverride([("$ref", Str("#/$defs/DatetimeLocal"))]) == Code("z.datetimeLocal()")
    ensures OutputParserOverride([("$ref", Str("#/$defs/DatetimeLocal"))]) == Code("z.datetimeLocal()")
    ensures InputParserOverride([("$ref", Str("#/$defs/File"))]) == Code("z.fileInput()")
    ensures OutputParserOverride([("$ref", Str("#/$defs/File"))]) == Code("z.fileOutput()")
  {
    RegisteredImage();
    RegisteredDatetimeLocal();
    RegisteredFile();
  }

  lemma RegisteredImage()
    ensures InputParserOverride([("$ref", Str("#/$defs/Image"))]) == Code("z.imageInput()")
    ensures OutputParserOverride([("$ref", Str("#/$defs/Image"))]) == Code("z.imageOutput()")
  {
    assert "#/$defs/" + "Image" == "#/$defs/Image";
    assert "z." + "imageInput" + "()" == "z.imageInput()";
    assert "z." + "imageOutput" + "()" == "z.imageOutput()";
    AtomOverride(0, Input);
    AtomOverride(0, Output);
  }

  lemma RegisteredDatetimeLocal()
    ensures InputParserOverride([("$ref", Str("#/$defs/DatetimeLocal"))]) == Code("z.datetimeLocal()")
    ensures OutputParserOverride([("$ref", Str("#/$defs/DatetimeLocal"))]) == Code("z.datetimeLocal()")
  {
    assert "#/$defs/" + "DatetimeLocal" == "#/$defs/DatetimeLocal";
    assert "z." + "datetimeLocal" + "()" == "z.datetimeLocal()";
    AtomOverride(1, Input);
    AtomOverride(1, Output);
  }

  lemma RegisteredFile()
    ensures InputParserOverride([("$ref", Str("#/$defs/File"))]) == Code("z.fileInput()")
    ensures OutputParserOverride([("$ref", Str("#/$defs/File"))]) == Code("z.fileOutput()")
  {
    assert "#/$defs/" + "File" == "#/$defs/File";
    assert "z." + "fileInput" + "()" == "z.fileInput()";
    assert "z." + "fileOutput" + "()" == "z.fileOutput()";
    AtomOverride(2, Input);
    AtomOverride(2, Output);
  }

  /** A `$defs` entry that is not an atom (`'#/$defs/event'`) is translated structurally. */
  lemma UnregisteredDefinition()
    ensures InputParserOverride([("$ref", Str("#/$defs/event"))]) == NoOverride
    ensures OutputParserOverride([("$ref", Str("#/$defs/event"))]) == NoOverride
  {
    NoSlashNoDefs("event");
    DefsPointerKey("event");
    assert "#/$defs/" + "event" == "#/$defs/event";
  }

  // ---------------------------------------------------------------------
  // The hydration before the translation

  /** `{ keepRefs: true }`: no merge, and `unresolvable` absent. */
  const HydrateOptions: Options := Options(NoMerge, KeepFlag(true), Unset, None)

  /**
   * With the options of the translation, an unresolvable pointer is
   * passed over silently: no warning is printed, and the only failure
   * left is the `TypeError` of a pointer into something that is not an
   * object.
   */
  lemma HydrateForZodQuiet(st: Store, root: NodeId, refs: seq<Ref>)
    ensures Resolve(st, root, refs, HydrateOptions).warnings == []
    ensures Resolve(st, root, refs, HydrateOptions).failure.Some? ==>
      Resolve(st, root, refs, HydrateOptions).failure.value.TypeError?
  {
    ResolveQuiet(st, root, refs, HydrateOptions);
  }

  /**
   * Hydration keeps what the override reads: the copy written in place of
   * a `$ref` node carries that node's pointer under `$ref`, so the
   * override answers for the copy what it answers for the original node.
   */
  lemma HydratedNodeKeepsOverride(st: Store, root: NodeId, e: Ref, source: Val, parent: NodeId, key: string,
                                  dir: Direction)
    requires ValidStore(st) && root in st.nodes
    requires EdgeSlot(st, root, e, source, parent, key) && source.Obj?
    requires Get(st.nodes, Obj(parent), key).Obj?
    ensures ResolveEdge(st, root, e, HydrateOptions).Written?
    ensures var st' := ResolveEdge(st, root, e, HydrateOptions).st;
      var copy := Get(st'.nodes, Obj(parent), key);
      ParserOverride(dir, EntriesOf(st'.nodes, copy)) ==
        ParserOverride(dir, EntriesOf(st.nodes, Get(st.nodes, Obj(parent), key)))
  {
    ResolveKeepsRef(st, root, e, HydrateOptions, source, parent, key);
    var st' := ResolveEdge(st, root, e, HydrateOptions).st;
    assert st.next in st'.nodes;
  }

  /**
   * `hydrateRefs(jsonSchema, { keepRefs: true })`, the step `schemaToZod`
   * takes before translating.
   */
  method HydrateForZod(doc: Document, root: Val) returns (r: Result<seq<Ref>, ResolveError>)
    requires doc.Valid() && Ranked(doc.nodes) && InHeap(doc.nodes, root)
    modifies doc
    ensures doc.Valid()
    ensures r.Ok? ==> r.value == []
    ensures r.Err? ==> r.error.TypeError?
    ensures !root.Obj? ==> doc.nodes == old(doc.nodes) && doc.next == old(doc.next)
    ensures root.Obj? ==>
      var refs := FilterRefs(FindNode(old(doc.nodes), root.id, [], "#"), RefFilterOf(Some(HydrateOptions)));
      Store(doc.nodes, doc.next) == Resolve(old(Store(doc.nodes, doc.next)), root.id, refs, HydrateOptions).st
  {
    ghost var st0 := Store(doc.nodes, doc.next);
    ghost var h0 := doc.nodes;
    r := HydrateRefs(doc, root, Some(HydrateOptions));
    if root.Obj? {
      HydrateForZodQuiet(st0, root.id, FilterRefs(FindNode(h0, root.id, [], "#"), RefFilterOf(Some(HydrateOptions))));
    }
  }
}
