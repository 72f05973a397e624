# DeltaPatcher in Dafny

A model of `DeltaPatcher<T>`, a partial-update ("PATCH") recorder. A patcher remembers which
properties of a `T` a caller explicitly assigned, and to what, converting each non-null value
set on a patchable property to that property's type (a value set under any other name is
kept unconverted). When every recorded name is a patchable property, `Patch` then writes
exactly those assignments onto a target `T` (a reference-type instance, non-null), leaving
every other property as it was; otherwise it throws part-way.

- `wrappers.dfy` (module `Wrappers`): `Option`, `Result`, `Outcome`, and `Error`, one constructor
  per exception the model keeps (`DuplicateKey` for `Dictionary.Add`,
  `ConversionFailed` for the type converter, `KeyNotFound` for the dictionary indexer).
- `schema.dfy` (module `PatchSchema`): property descriptors `(name, propertyType, canWrite,
  notPatchable)` stand in for reflection. `Collect` is the schema-building loop as a fold.
  The class `PropertyCache` is the static `m_patchableProperties` of one closed generic type,
  and `EnsureBuilt` fills it in place on first use.
- `delta_patcher.dfy` (module `DeltaPatching`): the class `DeltaPatcher` with its recorded
  assignments (`setValues`, the `m_setValues` dictionary) and `Create`, `Set` (TrySetMember),
  `Get` (TryGetMember) and `Patch`. Each state-changing method is proved against a pure
  function: `Record` for `Set`, `Overlay` for `Patch`, `Collect` for `EnsureBuilt`. The
  lemmas about those functions carry the properties.

The binder is replaced by explicit arguments: `Set(name, ignoreCase, value, convert)` and
`Get(name, ignoreCase)`. A target `T` is an `Item` holding a map from declared property name
to value. An object reference is a `Value`: `Null`, or `Obj(text)`, where `text` is
what the object's `ToString()` returns. The type converter is a parameter `convert` from
(property type, text) to an optional value; `None` stands for the converter throwing.

The model follows the code as written, including where it may be unexpected:

- Schema keys are the declared property names, case preserved, not lower-cased. A name lowered
  because the binder ignores case therefore only finds properties declared in lower case.
- `Set` does not reject a name missing from the schema. It records the value unconverted,
  and the later `Patch` fails on that key.
- Setting a name that is already recorded fails (`Dictionary.Add`). It does not overwrite.
- An empty schema is allowed. Two patchable properties with the same declared name make the
  first construction fail. The static table is then left non-null and partly filled, and
  later constructions reuse it as it is.
- `Patch` does no runtime type check of its target. A missing schema key is found only while
  looping, so writes for keys visited earlier have already happened.
- The schema is built without any lock.

## Model

| member | source | states |
|---|---|---|
| `PatchSchema.CollectEntries` | Source/DeltaPatcher.cs:31-42 | the building loop only adds to the table, and every entry it adds is a listed property that is writable and not NotPatchable, stored under its own declared name |
| `PatchSchema.CollectCompleteIff` | Source/DeltaPatcher.cs:31-42 | the building loop finishes exactly when no two patchable properties share a name and none is already in the table; otherwise `Dictionary.Add` throws |
| `PatchSchema.CollectKeys` | Source/DeltaPatcher.cs:31-42 | the keys added are always among the patchable names, and are all of them when the loop finishes |
| `PatchSchema.SchemaIsPatchableProperties` | Source/DeltaPatcher.cs:29-42 | from an empty table: when building finishes, the keys are exactly the declared names (case kept) of the writable, not-NotPatchable properties, each mapped to that property; it finishes iff those names are distinct; a failed build holds a subset of them |
| `PatchSchema.PropertyCache.constructor` | Source/DeltaPatcher.cs:12 | before any construction the static table is null (not initialized) |
| `PatchSchema.PropertyCache.EnsureBuilt` | Source/DeltaPatcher.cs:25-43 | the first construction fills the table exactly as `Collect` does and fails when it does; a table that already exists is left untouched and construction succeeds |
| `DeltaPatching.Lower` | Source/DeltaPatcher.cs:62 | lower-casing keeps the length, leaves no upper-case letter, keeps every other character and maps each upper-case ASCII letter to its lower-case form |
| `DeltaPatching.LowerKeepsLowerCase` | Source/DeltaPatcher.cs:62 | lower-casing a name that has no upper-case letter returns it unchanged |
| `DeltaPatching.LowerIdempotent` | Source/DeltaPatcher.cs:62 | lower-casing twice gives the same key as lower-casing once |
| `DeltaPatching.KeyFor` | Source/DeltaPatcher.cs:59-63 | the name is used verbatim when the binder does not ignore case; when it does, the key has the name's length and each character is that of the name lower-cased (no upper-case letter left) |
| `DeltaPatching.IgnoreCaseIdentifiesCaseVariants` | Source/DeltaPatcher.cs:59-63 | when case is ignored, names that differ only in ASCII letter case map to the same key |
| `DeltaPatching.IgnoreCaseFindsOnlyLowerCaseDeclared` | Source/DeltaPatcher.cs:59-68 | with case ignored, a name can match only a property whose declared name has no upper-case letter |
| `DeltaPatching.Record` | Source/DeltaPatcher.cs:65-80 | recording succeeds iff the key is new and conversion (when attempted) succeeds; success adds exactly that key and keeps all others; null is stored as null, a non-null value for an unknown name unconverted, one for a schema property as the converter's result; a converter failure or else a duplicate key is the error |
| `DeltaPatching.RecordThenLookup` | Source/DeltaPatcher.cs:77-102 | after a successful set, reading the key back gives the stored value and every other key reads as before |
| `DeltaPatching.Overlay` | Source/DeltaPatcher.cs:112-117 | after patching, each recorded property holds its recorded value and every property not recorded keeps its old value |
| `DeltaPatching.OverlayIdempotent` | Source/DeltaPatcher.cs:109-119 | patching the same target a second time leaves it as after the first |
| `DeltaPatching.DeltaPatcher.Init` | Source/DeltaPatcher.cs:16 | a new patcher has no recorded values |
| `DeltaPatching.DeltaPatcher.Create` | Source/DeltaPatcher.cs:21-44 | construction builds the shared table on first use only, starts with no recorded values, and fails only when the first build hits a repeated name |
| `DeltaPatching.DeltaPatcher.Set` | Source/DeltaPatcher.cs:55-81 | the name is cased per `KeyFor` and the recorded values become what `Record` gives; on failure they are unchanged |
| `DeltaPatching.DeltaPatcher.Get` | Source/DeltaPatcher.cs:89-103 | returns a value iff the (possibly lowered) name was recorded, and then the recorded value; no target is consulted |
| `DeltaPatching.DeltaPatcher.Patch` | Source/DeltaPatcher.cs:109-119 | succeeds iff every recorded key is in the schema, and the target then equals `Overlay` of its old values and the recorded ones; otherwise fails with `KeyNotFound` after writing some subset of the schema keys; the recorded values are not modified |

## Left out

- Reflection (`GetProperties`, `CanWrite`, `GetCustomAttribute`) is replaced by an input list of property descriptors. The `NotPatchable` attribute is a boolean flag.
- Reflection edge cases are not modelled: `Patch(null)` with a recorded schema key (`TargetException`), a setter that throws (`TargetInvocationException`), static properties (writing one changes every `T`, not only the target), a settable indexer named `Item` (`TargetParameterCountException` from `SetValue`), and a struct `T`, where `Patch` writes into a boxed copy so the caller's value never changes. The model's target is a non-null `Item` whose properties are instance properties.
- `PropertyInfo.SetValue` is a plain map update. Setter side effects, type-mismatch exceptions and the coercion of null to a default for value-type properties are not modelled.
- `TypeDescriptor.GetConverter(...).ConvertFromString(value.ToString())` is the parameter `convert`. No integer, boolean or date parsing is specified.
- `DynamicObject` binder dispatch is replaced by explicit `Set` and `Get` calls.
- `String.ToLower` is culture-sensitive; the model lowers ASCII letters only.
- The unsynchronised lazy initialisation of the static table, and its race under concurrent first construction, is concurrency and is not modelled. One `PropertyCache` object stands for the static field of one `T`.
- Dictionary enumeration order in `Patch` is not modelled. The loop picks keys in an arbitrary order, so after a failure only "some subset of the schema keys was written" is stated.
- `binder.Name` is never null, so a null name is not modelled.
