/**
 * The registry step of the zod-to-JSON-Schema translation: the loop over
 * the registered atoms that fills one definitions table per direction
 * with the zod extensions they name, and the configuration each entry
 * point hands to the translator library (not modelled).
 */
module ZodToSchema {
  import opened Registry

  /** A definitions table: the schema registered under each `$defs` key. */
  type Table = map<string, ZodSchema>

  /**
   * The table of one direction, as a specification: every definition whose
   * extension name for the direction is an extension, under its own key.
   */
  function TableOf(defs: seq<Definition>, exts: map<string, ZodSchema>, dir: Direction): Table
    decreases |defs|
  {
    if |defs| == 0 then map[]
    else
      var d := defs[|defs| - 1];
      var t := TableOf(defs[..|defs| - 1], exts, dir);
      if ZodName(d, dir) in exts then t[d.jsonSchemaDefinitionKey := exts[ZodName(d, dir)]] else t
  }

  /**
   * A key is in the table exactly when some definition with that key names
   * an extension for the direction, and it holds that extension.
   */
  lemma {:induction false} TableOfSpec(defs: seq<Definition>, exts: map<string, ZodSchema>, dir: Direction)
    requires DistinctDefinitionKeys(defs)
    ensures forall k :: k in TableOf(defs, exts, dir) <==>
      exists d :: d in defs && d.jsonSchemaDefinitionKey == k && ZodName(d, dir) in exts
    ensures forall d :: d in defs && ZodName(d, dir) in exts ==>
      TableOf(defs, exts, dir)[d.jsonSchemaDefinitionKey] == exts[ZodName(d, dir)]
    decreases |defs|
  {
    if |defs| > 0 {
      var init := defs[..|defs| - 1];
      var d := defs[|defs| - 1];
      assert DistinctDefinitionKeys(init);
      TableOfSpec(init, exts, dir);
      forall e | e in init ensures e.jsonSchemaDefinitionKey != d.jsonSchemaDefinitionKey {
        var i :| 0 <= i < |init| && init[i] == e;
        assert defs[i] == e;
      }
      TableOfStep(defs, exts, dir);
    }
  }

  /** The last definition adds its own key, which no earlier definition has. */
  lemma TableOfStep(defs: seq<Definition>, exts: map<string, ZodSchema>, dir: Direction)
    requires |defs| > 0
    requires var init := defs[..|defs| - 1];
      && (forall k :: k in TableOf(init, exts, dir) <==>
            exists d :: d in init && d.jsonSchemaDefinitionKey == k && ZodName(d, dir) in exts)
      && (forall d :: d in init && ZodName(d, dir) in exts ==>
            TableOf(init, exts, dir)[d.jsonSchemaDefinitionKey] == exts[ZodName(d, dir)])
    requires forall e :: e in defs[..|defs| - 1] ==> e.jsonSchemaDefinitionKey != defs[|defs| - 1].jsonSchemaDefinitionKey
    ensures forall k :: k in TableOf(defs, exts, dir) <==>
      exists d :: d in defs && d.jsonSchemaDefinitionKey == k && ZodName(d, dir) in exts
    ensures forall d :: d in defs && ZodName(d, dir) in exts ==>
      TableOf(defs, exts, dir)[d.jsonSchemaDefinitionKey] == exts[ZodName(d, dir)]
  {
    var init := defs[..|defs| - 1];
    var last := defs[|defs| - 1];
    assert defs == init + [last];
    assert forall e :: e in defs <==> e in init || e == last;
  }

  /** Every key of a table is the key of a definition. */
  lemma TableKeysAreDefinitions(defs: seq<Definition>, exts: map<string, ZodSchema>, dir: Direction, k: string)
    requires DistinctDefinitionKeys(defs) && k in TableOf(defs, exts, dir)
    ensures exists d :: d in defs && d.jsonSchemaDefinitionKey == k
  {
    TableOfSpec(defs, exts, dir);
  }

  /**
   * The tables are filled independently: a definition whose input name is
   * an extension is in the input table whatever its output name is, and
   * the other way round.
   */
  lemma TablesIndependent(defs: seq<Definition>, exts: map<string, ZodSchema>, d: Definition)
    requires DistinctDefinitionKeys(defs) && d in defs
    ensures d.jsonSchemaDefinitionKey in TableOf(defs, exts, Input) <==> d.input in exts
    ensures d.jsonSchemaDefinitionKey in TableOf(defs, exts, Output) <==> d.output in exts
  {
    TableOfSpec(defs, exts, Input);
    TableOfSpec(defs, exts, Output);
    forall e | e in defs && e.jsonSchemaDefinitionKey == d.jsonSchemaDefinitionKey ensures e == d {
      var i :| 0 <= i < |defs| && defs[i] == e;
      var j :| 0 <= j < |defs| && defs[j] == d;
      assert i == j;
    }
  }

  /**
   * The module-level loop `for (const def in definitions)`, filling
   * `inputSchemaDefinitions` and `outputSchemaDefinitions` in place.
   */
  method BuildTables(defs: seq<Definition>, exts: map<string, ZodSchema>) returns (input: Table, output: Table)
    ensures input == TableOf(defs, exts, Input)
    ensures output == TableOf(defs, exts, Output)
  {
    input := map[];
    output := map[];
    var i := 0;
    while i < |defs|
      invariant 0 <= i <= |defs|
      invariant input == TableOf(defs[..i], exts, Input)
      invariant output == TableOf(defs[..i], exts, Output)
    {
      assert defs[..i + 1][..i] == defs[..i];
      var def := defs[i];
      var inputExtensionName := def.input;
      if inputExtensionName in exts {
        input := input[def.jsonSchemaDefinitionKey := exts[inputExtensionName]];
      }
      var outputExtensionName := def.output;
      if outputExtensionName in exts {
        output := output[def.jsonSchemaDefinitionKey := exts[outputExtensionName]];
      }
      i := i + 1;
    }
    assert defs[..|defs|] == defs;
  }

  /** The options `zodToSchema` passes to the translator. */
  datatype TranslatorOptions = TranslatorOptions(definitionPath: string, target: string, definitions: Table)

  /** `zodToSchema(zodSchema, definitions)`: the definitions go under `$defs`, for OpenAPI 3. */
  function ZodToSchemaOptions(definitions: Table): (o: TranslatorOptions)
    ensures o.definitionPath == "$defs" && o.target == "openApi3"
    ensures o.definitions == definitions
  {
    TranslatorOptions("$defs", "openApi3", definitions)
  }

  /** `inputZodToSchema` and `outputZodToSchema`: the tables of the registry of the atoms index. */
  function InputZodToSchemaOptions(): TranslatorOptions {
    ZodToSchemaOptions(TableOf(AtomDefinitions(), AtomExtensions(), Input))
  }

  function OutputZodToSchemaOptions(): TranslatorOptions {
    ZodToSchemaOptions(TableOf(AtomDefinitions(), AtomExtensions(), Output))
  }

  /** The two entry points differ only in the table they pass. */
  lemma EntryPointsDifferInTable()
    ensures InputZodToSchemaOptions().definitionPath == OutputZodToSchemaOptions().definitionPath == "$defs"
    ensures InputZodToSchemaOptions().target == OutputZodToSchemaOptions().target
    ensures InputZodToSchemaOptions().definitions == TableOf(AtomDefinitions(), AtomExtensions(), Input)
    ensures OutputZodToSchemaOptions().definitions == TableOf(AtomDefinitions(), AtomExtensions(), Output)
  {
  }

  /** With the registry of the atoms index, both tables hold exactly `DatetimeLocal`. */
  lemma AtomTables()
    ensures TableOf(AtomDefinitions(), AtomExtensions(), Input) == map["DatetimeLocal" := ZodSchema("datetimeLocal")]
    ensures TableOf(AtomDefinitions(), AtomExtensions(), Output) == map["DatetimeLocal" := ZodSchema("datetimeLocal")]
  {
    assert AtomDefinitions()[..0] == [];
  }
}
