/**
 * The atom registry: for each atom, its key under `$defs` and the names of
 * the zod extensions that parse it in each direction, and the table of
 * those extensions.
 */
module Registry {

  /** The two directions a schema is translated in. */
  datatype Direction = Input | Output

  /** A registered atom: its key under `$defs`, and the zod extension of each direction. */
  datatype Definition = Definition(jsonSchemaDefinitionKey: string, input: string, output: string)

  /** `definition[type]`: the extension name for a direction. */
  function ZodName(d: Definition, dir: Direction): string {
    match dir
    case Input => d.input
    case Output => d.output
  }

  /** No two definitions share a key, as in any object. */
  predicate DistinctDefinitionKeys(defs: seq<Definition>) {
    forall i, j :: 0 <= i < j < |defs| ==> defs[i].jsonSchemaDefinitionKey != defs[j].jsonSchemaDefinitionKey
  }

  /**
   * The registry the JSON-Schema-to-zod override searches, in order. It is
   * rebuilt from the expectations of `schemaToZod.test.ts`: the
   * `definitions.ts` of this snapshot is a plain object of the atoms with
   * neither keys under `$defs` nor extension names.
   */
  function OverrideDefinitions(): seq<Definition> {
    [ Definition("Image", "imageInput", "imageOutput"),
      Definition("DatetimeLocal", "datetimeLocal", "datetimeLocal"),
      Definition("File", "fileInput", "fileOutput") ]
  }

  /** A zod schema an extension name stands for; its parsing is modelled by the atom modules. */
  datatype ZodSchema = ZodSchema(extension: string)

  /**
   * `definitions` of the atoms index: the image module contributes no
   * definition, so only `DatetimeLocal` is registered.
   */
  function AtomDefinitions(): seq<Definition> {
    [Definition("DatetimeLocal", "datetimeLocal", "datetimeLocal")]
  }

  /** `zodExtensions` of the atoms index: only `datetimeLocal`. */
  function AtomExtensions(): map<string, ZodSchema> {
    map["datetimeLocal" := ZodSchema("datetimeLocal")]
  }
}
