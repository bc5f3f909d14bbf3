# hoplite decoding engine, modelled in Dafny

hoplite turns an untyped, position-tagged configuration tree into typed
Kotlin values and reports every failure it finds, not only the first. This
project models the core of that engine and proves its properties:

- **Validation** (`validation.dfy`): `Validated` results and the applicative
  `sequence()`, which keeps every failure in order.
- **Model** (`model.dfy`): the value tree (`Node`). Explicit descriptors
  stand in for Kotlin reflection: `KType` (classifier, `isMarkedNullable`,
  type arguments), `KClass` (data class, enum, `Set` or other, with the
  parameters of its first constructor) and `Param` (name, type,
  `isOptional`). The module also holds the objects decoders produce and the
  `ConfigFailure` variants.
- **Nullability** (`nullability.dfy`): the null handling of
  `NonNullableDecoder`. The newer `SetDecoder` extends `NullHandlingDecoder`,
  whose source is not part of this model; it is assumed to handle `Undefined`
  and null the same way.
- **Registry** (`registry.dfy`): the newer, priority-based
  `DefaultDecoderRegistry` of `DecoderRegistry.kt`.
- **Decoding** (`decoding.dfy`): `DataClassDecoder` and `SetDecoder`
  decoding through a `DecoderContext`. Decoding recurses on the target type,
  so it terminates.
- **Text** (`text.dfy`): Kotlin's `split(",")` and `trim()`, and decimal
  rendering of an index.
- **LegacyDecoders** (`legacy.dfy`): the older find-first registry, the
  `Decoder.map` combinator, and the `File` and `Path` decoders of `Decoder.kt`
  and `files.kt`.
- **Converters** (`converters.dfy`): the older `DataClassConverter` and the
  enum converter.
- **Json** (`json.dfy`): the JSON tree builder.
  - `JsonCursor` is a cursor over a token sequence that stands in for the
    Jackson parser.
  - Its methods `TokenProduction`, `ObjectProduction` and `ArrayProduction`
    advance that cursor with `while` loops.
  - Each method is proved to compute what the grammar functions
    `ParseValue`, `ParseFieldList` and `ParseElementList` describe.

Two behaviours of the code are worth stating outright:

- **Repeated field names in JSON.** `json.kt:65` stores each member with
  `obj[fieldName] = value`, so a JSON object with a repeated name keeps the
  value of its last member of that name. `Json.MapOfFieldsLastWins` and
  `Json.DuplicateFieldOverwrites` state this.
- **Ties in priority.** Resolution takes `maxBy { it.priority() }` over the
  supporting decoders (`DecoderRegistry.kt:51`), which keeps the first
  maximum: among supporting decoders of equal top priority the earliest
  registered wins. `Registry.Resolve` states this through
  `Registry.IsFirstMax`.

## Model

Paths are relative to the repository root.

| member | source | states |
|---|---|---|
| Validation.Sequence | hoplite-core/src/main/kotlin/com/sksamuel/hoplite/decoder/DataClassDecoder.kt:57 | `sequence()` is valid iff every result is valid. When valid, it holds one value per result, in order. Otherwise it holds exactly the failures of the invalid results, and there is at least one. |
| Validation.FailuresInOrder | hoplite-core/src/main/kotlin/com/sksamuel/hoplite/decoder/DataClassDecoder.kt:57 | No failure is dropped and none is invented. The accumulated failures are the errors at the invalid positions, in increasing position order. |
| Validation.FailuresEmptyIffAllValid | hoplite-core/src/main/kotlin/com/sksamuel/hoplite/decoder/DataClassDecoder.kt:57 | The failure list is empty exactly when every result is valid. |
| Validation.FailuresMembers | hoplite-core/src/main/kotlin/com/sksamuel/hoplite/converter/DataClassConverter.kt:25 | A failure is accumulated exactly when some result holds it. |
| Validation.FlattenMembers | hoplite-core/src/main/kotlin/com/sksamuel/hoplite/converter/DataClassConverter.kt:25 | Concatenating the failure lists keeps exactly the members of each list. |
| Validation.FailuresOfPresent | hoplite-core/src/main/kotlin/com/sksamuel/hoplite/decoder/DataClassDecoder.kt:36-57 | `mapNotNull` followed by `sequence` reports exactly the failures of the non-skipped results, in order. It is valid iff no position fails. |
| Validation.PresentFailuresMembers | hoplite-core/src/main/kotlin/com/sksamuel/hoplite/decoder/DataClassDecoder.kt:36-57 | A failure is reported iff some position holds it. |
| Validation.SequencePresentStep | hoplite-core/src/main/kotlin/com/sksamuel/hoplite/decoder/DataClassDecoder.kt:36-57 | When nothing fails, the sequenced values grow by the last outcome exactly when that outcome is present. |
| Model.Params | hoplite-core/src/main/kotlin/com/sksamuel/hoplite/decoder/DataClassDecoder.kt:32-33 | For a well-formed type, the parameters of the first constructor have distinct names. Their types are classes and are well-formed too. |
| Nullability.Intercept | hoplite-core/src/main/kotlin/com/sksamuel/hoplite/decoder/Decoder.kt:93-100 | The wrapper settles a node itself exactly when it is `Undefined` or a null node. It succeeds only with null, and only for a nullable type. |
| Nullability.NonNullable | hoplite-core/src/main/kotlin/com/sksamuel/hoplite/decoder/Decoder.kt:83-100 | `Undefined` gives null for a nullable type and `MissingValue` otherwise. An explicit null gives null for a nullable type, otherwise `NullValueForNonNullField` carrying that node. Any other node gives exactly `safeDecode(node)`. |
| Nullability.SafeDecodeNotConsultedOnNull | hoplite-core/src/main/kotlin/com/sksamuel/hoplite/decoder/Decoder.kt:96-98 | On `Undefined` or null, `safeDecode` is never consulted: any two wrapped decoders give the same outcome. |
| Registry.Register | hoplite-core/src/main/kotlin/com/sksamuel/hoplite/decoder/DecoderRegistry.kt:58-60 | `register` gives a new registry: the old list with the decoder at the end, and a size one larger. The receiver is a value, so it is unchanged. |
| Registry.Size | hoplite-core/src/main/kotlin/com/sksamuel/hoplite/decoder/DecoderRegistry.kt:60 | No contract of its own: `size` is the length of the decoder list. `Registry.Register` and `Registry.FromListHoldsList` state its value after `register` and after the fold. |
| Registry.FromList | hoplite-core/src/main/kotlin/com/sksamuel/hoplite/decoder/DecoderRegistry.kt:63-66 | No contract of its own: the left fold of `register` over the discovered list, starting from `zero`. `Registry.FromListHoldsList` states that it yields exactly that list. |
| Registry.Supports | hoplite-core/src/main/kotlin/com/sksamuel/hoplite/decoder/DataClassDecoder.kt:24 | No contract of its own: the data-class decoder supports a type whose classifier is a data class, and the set decoder supports a `Set` class whatever the nullability (`SetDecoder.kt:19-20`). `Decoding.SetDecoderSupportsEitherNullability` states the latter. |
| Registry.Priority | hoplite-core/src/main/kotlin/com/sksamuel/hoplite/decoder/DataClassDecoder.kt:26 | No contract of its own: the data-class decoder has priority `Int.MIN_VALUE`. `Registry.DataClassDecoderYields` states that any supporting decoder of higher priority is resolved instead. |
| Registry.Supporting | hoplite-core/src/main/kotlin/com/sksamuel/hoplite/decoder/DecoderRegistry.kt:47 | No contract of its own: `filter { it.supports(type) }`. `Registry.SupportingEmptyIff` and `Registry.FilterThenMax` state what it keeps. |
| Registry.MaxByPriority | hoplite-core/src/main/kotlin/com/sksamuel/hoplite/decoder/DecoderRegistry.kt:51 | No contract of its own: `maxBy { it.priority() }` as a left scan. `Registry.FilterThenMax` states that it picks the first maximum. |
| Registry.FromListHoldsList | hoplite-core/src/main/kotlin/com/sksamuel/hoplite/decoder/DecoderRegistry.kt:63-66 | Folding `register` over a list from `zero` gives a registry of exactly that list, with size equal to its length. |
| Registry.ZeroIsEmpty | hoplite-core/src/main/kotlin/com/sksamuel/hoplite/decoder/DecoderRegistry.kt:29-31 | `zero` has size 0. |
| Registry.SupportingEmptyIff | hoplite-core/src/main/kotlin/com/sksamuel/hoplite/decoder/DecoderRegistry.kt:47 | The filtered list is empty exactly when no registered decoder supports the type. |
| Registry.FilterThenMax | hoplite-core/src/main/kotlin/com/sksamuel/hoplite/decoder/DecoderRegistry.kt:47-51 | Filtering and then taking `maxBy` picks the first maximum among the supporting decoders of the whole registry. |
| Registry.Resolve | hoplite-core/src/main/kotlin/com/sksamuel/hoplite/decoder/DecoderRegistry.kt:44-56 | Resolution fails iff no decoder supports the type: with `NoDataClassDecoder` for a data class, `NoSuchDecoder(type)` otherwise. On success it returns a registered, supporting decoder. No supporting decoder has a higher priority, and every earlier supporting decoder has a strictly lower one. |
| Registry.FirstMaxUnique | hoplite-core/src/main/kotlin/com/sksamuel/hoplite/decoder/DecoderRegistry.kt:51 | The decoder to pick is unique: only one position is the first maximum. |
| Registry.ResolvedHasTopPriority | hoplite-core/src/main/kotlin/com/sksamuel/hoplite/decoder/DecoderRegistry.kt:47-51 | If any decoder supports the type, resolution succeeds. Its priority is at least that of every supporting decoder. |
| Registry.ResolveIndependentOfOrder | hoplite-core/src/main/kotlin/com/sksamuel/hoplite/decoder/DecoderRegistry.kt:47-51 | When the supporting priorities are distinct, two registries holding the same decoders in any order resolve a type alike. |
| Registry.SamePriorityIsSame | hoplite-core/src/main/kotlin/com/sksamuel/hoplite/decoder/DecoderRegistry.kt:51 | Under distinct priorities, two supporting positions with equal priority are the same position. |
| Registry.ResolvesFirstMax | hoplite-core/src/main/kotlin/com/sksamuel/hoplite/decoder/DecoderRegistry.kt:44-56 | Resolution yields exactly the first decoder of top priority among those that support the type. |
| Registry.HigherPriorityWins | hoplite-core/src/main/kotlin/com/sksamuel/hoplite/decoder/DecoderRegistry.kt:51 | Of two supporting decoders, the one with the higher priority is resolved, whichever was registered first. |
| Registry.DataClassDecoderYields | hoplite-core/src/main/kotlin/com/sksamuel/hoplite/decoder/DataClassDecoder.kt:24-26 | The data-class decoder has priority `Int.MIN_VALUE`, so any supporting decoder with a higher priority is resolved instead of it. |
| Decoding.MapperFoldIsFirstDefined | hoplite-core/src/main/kotlin/com/sksamuel/hoplite/decoder/DataClassDecoder.kt:38-40 | The mapper fold equals an independent first-match definition: the node under the first mapper whose lookup is defined. |
| Decoding.MapperFold | hoplite-core/src/main/kotlin/com/sksamuel/hoplite/decoder/DataClassDecoder.kt:38-40 | No contract of its own: the fold over the parameter mappers. `Decoding.MapperFoldIsFirstDefined` and `Decoding.FirstDefinedWitness` state that it finds the node under the first mapper whose lookup is defined. |
| Decoding.FirstDefinedWitness | hoplite-core/src/main/kotlin/com/sksamuel/hoplite/decoder/DataClassDecoder.kt:38-40 | The bound node is `Undefined` iff every mapper's lookup is. Otherwise it is the lookup of some mapper all of whose predecessors missed. |
| Decoding.PreprocessConcat | hoplite-core/src/main/kotlin/com/sksamuel/hoplite/decoder/DataClassDecoder.kt:42 | Preprocessing by a concatenation of lists is preprocessing by each part in turn. |
| Decoding.PreprocessLeftToRight | hoplite-core/src/main/kotlin/com/sksamuel/hoplite/decoder/DataClassDecoder.kt:42 | The first preprocessor in the list sees the node first. |
| Decoding.Preprocess | hoplite-core/src/main/kotlin/com/sksamuel/hoplite/decoder/DataClassDecoder.kt:42 | No contract of its own: the fold of the preprocessors over the node. `Decoding.PreprocessConcat` and `Decoding.PreprocessLeftToRight` state the order in which they run. |
| Decoding.ParamNode | hoplite-core/src/main/kotlin/com/sksamuel/hoplite/decoder/DataClassDecoder.kt:38-42 | No contract of its own: the mapped node, then preprocessed. `Decoding.BindParam` and `Decoding.BindParamClassifies` state how that node is classified. |
| Decoding.Decode | hoplite-core/src/main/kotlin/com/sksamuel/hoplite/decoder/DataClassDecoder.kt:53 | No contract of its own: `decoder.decode(node, type, context)` dispatched on the decoder: the data-class decoder, the set decoder behind its null handling, or a leaf decoder's own function. `Decoding.SetDecoderHandlesNull` and `Decoding.BindParamClassifies` state how it is used. |
| Decoding.BindParam | hoplite-core/src/main/kotlin/com/sksamuel/hoplite/decoder/DataClassDecoder.kt:44-56 | A parameter is skipped (no argument at all) exactly when it is optional and its processed node is `Undefined`. A binding is always for that parameter. |
| Decoding.BindParamClassifies | hoplite-core/src/main/kotlin/com/sksamuel/hoplite/decoder/DataClassDecoder.kt:47-55 | The when-chain, case by case. A nullable parameter with no value or a null is bound to null. A non-nullable one with no value gives `MissingValue`. With a null it gives `NullValueForNonNullField` carrying the enclosing node. Any other node is decoded by the decoder resolved for the parameter type, and a lookup or decode failure is wrapped in `ParamFailure(param, …)`. |
| Decoding.Construct | hoplite-core/src/main/kotlin/com/sksamuel/hoplite/decoder/DataClassDecoder.kt:64-72 | Succeeds iff the constructor accepts the arguments, with its result. A rejection becomes `InvalidConstructorParameters(type, args)`. |
| Decoding.DataClassDecode | hoplite-core/src/main/kotlin/com/sksamuel/hoplite/decoder/DataClassDecoder.kt:28-62 | No contract of its own. `Decoding.DataClassFieldErrorsIff` states its failure case: `DataClassFieldErrors` iff some parameter fails, with exactly those failures in order. `Decoding.DataClassConstructs` and `Decoding.ConstructsWhenAllValid` state its success case: the constructor called on the decoded values by name. |
| Decoding.DataClassFieldErrorsIff | hoplite-core/src/main/kotlin/com/sksamuel/hoplite/decoder/DataClassDecoder.kt:36-60 | The decoder reports `DataClassFieldErrors` iff some parameter fails. The failure then holds every parameter failure, in parameter order and nothing else, with the type and the node's position. |
| Decoding.ArgMapIsBoundArgs | hoplite-core/src/main/kotlin/com/sksamuel/hoplite/decoder/DataClassDecoder.kt:59-61 | When no parameter fails, the `toMap` of the sequenced pairs is the map the outcomes bind, position by position. |
| Decoding.BoundArgsHoldsPresent | hoplite-core/src/main/kotlin/com/sksamuel/hoplite/decoder/DataClassDecoder.kt:36-61 | When the names are distinct, every non-skipped parameter's argument is bound under its name. |
| Decoding.BoundArgsOnlyPresent | hoplite-core/src/main/kotlin/com/sksamuel/hoplite/decoder/DataClassDecoder.kt:36-61 | Every bound name is the name of a non-skipped parameter. |
| Decoding.BoundArgsSkipsAbsent | hoplite-core/src/main/kotlin/com/sksamuel/hoplite/decoder/DataClassDecoder.kt:36-61 | When the names are distinct, a skipped parameter's name is not bound. |
| Decoding.BoundArgsByName | hoplite-core/src/main/kotlin/com/sksamuel/hoplite/decoder/DataClassDecoder.kt:36-61 | When the names are distinct, the bound map has one entry per non-skipped parameter, under its name, and no other entry. A skipped parameter has no entry. |
| Decoding.DataClassConstructs | hoplite-core/src/main/kotlin/com/sksamuel/hoplite/decoder/DataClassDecoder.kt:35-61 | When no parameter fails, the result is the constructor's outcome on a map that holds each non-skipped parameter's decoded value under its name. A skipped optional parameter is absent, so no null is supplied for it. |
| Decoding.ConstructsWhenAllValid | hoplite-core/src/main/kotlin/com/sksamuel/hoplite/decoder/DataClassDecoder.kt:59-61 | When every binding is valid, the decoder's result is `construct` applied to the bindings' map. |
| Decoding.StringTokensShape | hoplite-core/src/main/kotlin/com/sksamuel/hoplite/decoder/SetDecoder.kt:36-38 | A delimited string gives one token more than it has commas. Each token is the trimmed piece, contains no comma, and keeps the node's position and path. |
| Decoding.SetSafeDecode | hoplite-core/src/main/kotlin/com/sksamuel/hoplite/decoder/SetDecoder.kt:44-50 | If no decoder exists for the element type, that lookup failure is the result and no element is decoded. Otherwise a node that is neither an array nor a string fails with `UnsupportedCollectionType(node, "Set")`. |
| Decoding.DecodeEach | hoplite-core/src/main/kotlin/com/sksamuel/hoplite/decoder/SetDecoder.kt:30 | One result per element, each element decoded independently against the element type. |
| Decoding.CollectSet | hoplite-core/src/main/kotlin/com/sksamuel/hoplite/decoder/SetDecoder.kt:30-32 | Valid iff every element is valid, and then the set of exactly the decoded values. Otherwise `CollectionElementErrors(node, failures)` holds all element failures, at least one. |
| Decoding.SetDecodesEachElement | hoplite-core/src/main/kotlin/com/sksamuel/hoplite/decoder/SetDecoder.kt:29-42 | For an array or a string node, each element is decoded with the element type's decoder. The set is valid iff every element decodes. Then `x` is a member iff some element decodes to `x`, so duplicates collapse. Otherwise every element failure is reported in element order. |
| Decoding.SetDecoderSupportsEitherNullability | hoplite-core/src/main/kotlin/com/sksamuel/hoplite/decoder/SetDecoder.kt:19-20 | The set decoder supports a `Set` type whether or not it is marked nullable. |
| Decoding.SetDecoderHandlesNull | hoplite-core/src/main/kotlin/com/sksamuel/hoplite/decoder/SetDecoder.kt:17-24 | The set decoder settles `Undefined` and null as the null-handling wrapper does, and hands every other node to `safeDecode`. |
| Decoding.SetOfDecoded | hoplite-core/src/main/kotlin/com/sksamuel/hoplite/decoder/SetDecoder.kt:29-42 | When every element decodes, the set holds exactly the decoded values. |
| Decoding.StringSetOf | hoplite-core/src/main/kotlin/com/sksamuel/hoplite/decoder/SetDecoder.kt:29-42 | With a string decoder registered, a `Set<String>` is exactly the set of its element texts. |
| Decoding.DuplicatesCollapse | hoplite-core/src/main/kotlin/com/sksamuel/hoplite/decoder/SetDecoder.kt:29-42 | `"a, b, a"` and `["a", "b", "a"]` both decode to `{a, b}`. |
| Text.Split | hoplite-core/src/main/kotlin/com/sksamuel/hoplite/decoder/SetDecoder.kt:36 | `split` always gives at least one piece. |
| Text.SplitCount | hoplite-core/src/main/kotlin/com/sksamuel/hoplite/decoder/SetDecoder.kt:36 | There is one piece more than there are delimiters. |
| Text.SplitJoin | hoplite-core/src/main/kotlin/com/sksamuel/hoplite/decoder/SetDecoder.kt:36 | No piece contains the delimiter, and joining the pieces with it gives back the string. |
| Text.SplitNoDelimiter | hoplite-core/src/main/kotlin/com/sksamuel/hoplite/decoder/SetDecoder.kt:36 | A string without the delimiter is a single piece. |
| Text.SplitAtFirst | hoplite-core/src/main/kotlin/com/sksamuel/hoplite/decoder/SetDecoder.kt:36 | The first piece is the text before the first delimiter, followed by the pieces of the rest. |
| Text.LeadingSpace | hoplite-core/src/main/kotlin/com/sksamuel/hoplite/decoder/SetDecoder.kt:37 | The length of the longest whitespace prefix. |
| Text.TrailingSpace | hoplite-core/src/main/kotlin/com/sksamuel/hoplite/decoder/SetDecoder.kt:37 | The length of the longest whitespace suffix lying past the first `lo` characters. |
| Text.Trim | hoplite-core/src/main/kotlin/com/sksamuel/hoplite/decoder/SetDecoder.kt:37 | `trim()` is the middle of the string between a whitespace prefix and a whitespace suffix, and neither starts nor ends with whitespace. |
| Text.NatToString | hoplite-json/src/main/kotlin/com/sksamuel/hoplite/json/json.kt:78 | The rendering of `$index` is non-empty, all decimal digits, with no leading zero. |
| Text.NatToStringRoundTrip | hoplite-json/src/main/kotlin/com/sksamuel/hoplite/json/json.kt:78 | Reading the digits back gives the index. |
| Text.NatToStringInjective | hoplite-json/src/main/kotlin/com/sksamuel/hoplite/json/json.kt:78 | Distinct indices render differently. |
| LegacyDecoders.FindFirst | hoplite-core/src/main/kotlin/com/sksamuel/hoplite/decoder/Decoder.kt:41 | `find` gives the first supporting position, with every earlier decoder not supporting the type. It finds nothing iff no decoder supports it. |
| LegacyDecoders.FromList | hoplite-core/src/main/kotlin/com/sksamuel/hoplite/decoder/Decoder.kt:46-49 | No contract of its own: the left fold of `register` from `zero`. `LegacyDecoders.FromListHoldsList` states that it yields exactly the list. |
| LegacyDecoders.Lookup | hoplite-core/src/main/kotlin/com/sksamuel/hoplite/decoder/Decoder.kt:40-41 | The older resolution returns the first registered decoder that supports the type. It fails with `NoSuchDecoder(type)` iff none does. |
| LegacyDecoders.Register | hoplite-core/src/main/kotlin/com/sksamuel/hoplite/decoder/Decoder.kt:43 | `register` appends the decoder at the end and leaves the old list as the prefix. |
| LegacyDecoders.FromListHoldsList | hoplite-core/src/main/kotlin/com/sksamuel/hoplite/decoder/Decoder.kt:46-49 | The fold from `zero` gives a registry of exactly the discovered list. |
| LegacyDecoders.LookupAfterRegister | hoplite-core/src/main/kotlin/com/sksamuel/hoplite/decoder/Decoder.kt:40-43 | Registering never shadows. A type that was found is found as before. A type that was not found is found exactly when the new decoder supports it, and then as that decoder. |
| LegacyDecoders.MapValid | hoplite-core/src/main/kotlin/com/sksamuel/hoplite/decoder/Decoder.kt:72-74 | A mapped result is `f` of the inner success value. An inner failure passes through unchanged. |
| LegacyDecoders.Supports | hoplite-core/src/main/kotlin/com/sksamuel/hoplite/decoder/Decoder.kt:71 | No contract of its own. `LegacyDecoders.MappedSupportsTarget` and `LegacyDecoders.FileDecodersSupportOwnClass` state what the mapped, file and path decoders support. |
| LegacyDecoders.Decode | hoplite-core/src/main/kotlin/com/sksamuel/hoplite/decoder/Decoder.kt:93-100 | No contract of its own: the file decoders behind `NonNullableDecoder`, and a mapped decoder applying its function to the inner result. `LegacyDecoders.FileDecoderCases`, `LegacyDecoders.PathDecoderCases`, `LegacyDecoders.MapIdentity` and `LegacyDecoders.MapComposition` state its cases. |
| LegacyDecoders.FileSafeDecode | hoplite-core/src/main/kotlin/com/sksamuel/hoplite/decoder/files.kt:16-21 | No contract of its own: a string names a file, anything else is `DecodeError(node, type)`. `LegacyDecoders.FileDecoderCases` states this through the null handling. |
| LegacyDecoders.PathSafeDecode | hoplite-core/src/main/kotlin/com/sksamuel/hoplite/decoder/files.kt:26-31 | No contract of its own: a string names a path, anything else is `DecodeError(node, type)`. `LegacyDecoders.PathDecoderCases` states this through the null handling. |
| LegacyDecoders.MapIdentity | hoplite-core/src/main/kotlin/com/sksamuel/hoplite/decoder/Decoder.kt:70-75 | Functor identity: mapping by the identity decodes as the inner decoder. |
| LegacyDecoders.MapComposition | hoplite-core/src/main/kotlin/com/sksamuel/hoplite/decoder/Decoder.kt:70-75 | Functor composition: mapping by `f` and then by `g` decodes as mapping by `g ∘ f`. |
| LegacyDecoders.MappedSupportsTarget | hoplite-core/src/main/kotlin/com/sksamuel/hoplite/decoder/Decoder.kt:71 | A mapped decoder supports exactly `U::class.createType()`: non-nullable, with no arguments, whatever the inner decoder supports. |
| LegacyDecoders.FileDecoderCases | hoplite-core/src/main/kotlin/com/sksamuel/hoplite/decoder/files.kt:14-22 | `Undefined` and null are handled as by `NonNullableDecoder`. A string gives a file of exactly that text. Any other value gives `DecodeError(node, type)`. |
| LegacyDecoders.PathDecoderCases | hoplite-core/src/main/kotlin/com/sksamuel/hoplite/decoder/files.kt:24-32 | The same for `Path`. |
| LegacyDecoders.FileDecodersSupportOwnClass | hoplite-core/src/main/kotlin/com/sksamuel/hoplite/decoder/files.kt:14-25 | Each decoder supports exactly the types classified by its own class, and no type is supported by both. |
| Converters.ParamResults | hoplite-core/src/main/kotlin/com/sksamuel/hoplite/converter/DataClassConverter.kt:19-24 | One result per constructor parameter, in declared order, each the binding of that parameter. |
| Converters.ConvertParam | hoplite-core/src/main/kotlin/com/sksamuel/hoplite/converter/DataClassConverter.kt:20-23 | No contract of its own: the binding of one parameter. `Converters.ConvertParamCases` states its four cases and `Converters.ConvertParamReadsOwnName` states that it reads only the value at the parameter's name. |
| Converters.Convert | hoplite-core/src/main/kotlin/com/sksamuel/hoplite/converter/DataClassConverter.kt:17-30 | The conversion succeeds iff every parameter binds. The constructor then receives one argument per parameter, in declared order. Otherwise the result is the concatenated failures of the parameters. |
| Converters.ConvertParamCases | hoplite-core/src/main/kotlin/com/sksamuel/hoplite/converter/DataClassConverter.kt:20-23 | A null for a nullable parameter binds null. A null for a non-nullable parameter fails with `NullForNonNull(value, name)`. A missing converter's failure propagates, and otherwise the converter's outcome is the binding. |
| Converters.ConvertParamReadsOwnName | hoplite-core/src/main/kotlin/com/sksamuel/hoplite/converter/DataClassConverter.kt:19-20 | A parameter is looked up by its own name only: values that agree at that key bind it alike. |
| Validation.FlattenFailuresMembers | hoplite-core/src/main/kotlin/com/sksamuel/hoplite/converter/DataClassConverter.kt:25 | A failure is in the flattened failure lists iff some invalid result holds it. |
| Converters.ConvertReportsEveryFailure | hoplite-core/src/main/kotlin/com/sksamuel/hoplite/converter/DataClassConverter.kt:19-25 | A failing conversion has a failing parameter. A failure is reported iff it is among some parameter's failures. |
| Converters.Provide | hoplite-core/src/main/kotlin/com/sksamuel/hoplite/converter/enum.kt:12-15 | The provider returns a converter iff the classifier is an enum class, and that converter is for that class. |
| Converters.FindConstant | hoplite-core/src/main/kotlin/com/sksamuel/hoplite/converter/enum.kt:20 | `find` gives the first constant equal to the string. It finds nothing iff no constant equals it. |
| Converters.EnumApply | hoplite-core/src/main/kotlin/com/sksamuel/hoplite/converter/enum.kt:19-22 | The conversion succeeds iff the cursor's string equals some constant, with the first such constant, which is a member of the enum. Otherwise it fails with `ConversionFailure(klass, value)`. |
| Converters.EnumRoundTrip | hoplite-core/src/main/kotlin/com/sksamuel/hoplite/converter/enum.kt:20-21 | When the constants' strings are distinct, converting the string of the constant at position `k` gives that constant. |
| Converters.EnumIsCaseSensitive | hoplite-core/src/main/kotlin/com/sksamuel/hoplite/converter/enum.kt:20 | Matching is exact: `"red"` does not match the constant `"Red"`, while `"Red"` does. |
| Json.ParseValue | hoplite-json/src/main/kotlin/com/sksamuel/hoplite/json/json.kt:35-50 | A value is read from its first token to a later one. The node carries the given path and the location of its first token. |
| Json.ParseFieldList | hoplite-json/src/main/kotlin/com/sksamuel/hoplite/json/json.kt:60-66 | The member loop reads past its starting token and ends on an `END_OBJECT` token. |
| Json.FieldListKeepsPrefix | hoplite-json/src/main/kotlin/com/sksamuel/hoplite/json/json.kt:60-66 | The member loop only appends: the members already read stay, in order, as a prefix of the result. |
| Json.FieldListPaths | hoplite-json/src/main/kotlin/com/sksamuel/hoplite/json/json.kt:62-64 | Each member's value sits at `path.name`. |
| Json.ParseElementList | hoplite-json/src/main/kotlin/com/sksamuel/hoplite/json/json.kt:76-81 | The element loop reads past its starting token and ends on an `END_ARRAY` token. |
| Json.ElementListKeepsPrefix | hoplite-json/src/main/kotlin/com/sksamuel/hoplite/json/json.kt:76-81 | The element loop only appends: the elements already read stay, in token order, as a prefix of the result. |
| Json.ElementListPaths | hoplite-json/src/main/kotlin/com/sksamuel/hoplite/json/json.kt:77-79 | The element at position `k` sits at `path[k]`. |
| Json.JsonCursor.constructor | hoplite-json/src/main/kotlin/com/sksamuel/hoplite/json/json.kt:25-26 | The parser is positioned on the first token. |
| Json.JsonCursor.NextToken | hoplite-json/src/main/kotlin/com/sksamuel/hoplite/json/json.kt:60 | `nextToken()` advances by one token, or stays put at the end of input, and returns the new current token. |
| Json.JsonCursor.TokenProduction | hoplite-json/src/main/kotlin/com/sksamuel/hoplite/json/json.kt:34-51 | The dispatch on the current token returns exactly the node or error `ParseValue` gives, and leaves the cursor on the value's last token. |
| Json.JsonCursor.ObjectProduction | hoplite-json/src/main/kotlin/com/sksamuel/hoplite/json/json.kt:55-69 | The member loop builds exactly the map `ParseValue` gives: each member is stored under its name, the opening token's location is kept, and the cursor ends on `END_OBJECT`. A member not introduced by a field name fails the requirement. |
| Json.JsonCursor.ArrayProduction | hoplite-json/src/main/kotlin/com/sksamuel/hoplite/json/json.kt:71-85 | The element loop builds exactly the list `ParseValue` gives. The counter `index` equals the number of elements read and names each element's path. The cursor ends on `END_ARRAY`. |
| Json.Load | hoplite-json/src/main/kotlin/com/sksamuel/hoplite/json/json.kt:24-28 | `load` returns exactly the value `ParseValue` reads from the first token at path `<root>`, or its error. |
| Json.RootPath | hoplite-json/src/main/kotlin/com/sksamuel/hoplite/json/json.kt:27 | The loaded value sits at `<root>`, with the location of the first token. |
| Json.MapOfFieldsKeys | hoplite-json/src/main/kotlin/com/sksamuel/hoplite/json/json.kt:59-65 | The map's keys are exactly the field names seen. |
| Json.MapOfFields | hoplite-json/src/main/kotlin/com/sksamuel/hoplite/json/json.kt:59-65 | No contract of its own: the map the member loop builds by `obj[fieldName] = value`. `Json.MapOfFieldsKeys` and `Json.MapOfFieldsLastWins` state its keys and the value under each. |
| Json.MapOfFieldsLastWins | hoplite-json/src/main/kotlin/com/sksamuel/hoplite/json/json.kt:65 | Under each name is the value of the last member with that name. |
| Json.ObjectMembers | hoplite-json/src/main/kotlin/com/sksamuel/hoplite/json/json.kt:55-69 | An object read at `p`: its keys are the field names read, a repeated name holds its last value, and the member `f` sits at `p.f`. |
| Json.ArrayElements | hoplite-json/src/main/kotlin/com/sksamuel/hoplite/json/json.kt:71-85 | An array read at `p`: its `k`-th element sits at `p[k]`, so no two elements share a path. |
| Json.ScalarTokens | hoplite-json/src/main/kotlin/com/sksamuel/hoplite/json/json.kt:40-47 | An integer token gives a long node and a float token a double node. `true` and `false` give boolean nodes with that value, null gives a null node and a string a string node. Each sits at the path and the token's location. |
| Json.ParseErrors | hoplite-json/src/main/kotlin/com/sksamuel/hoplite/json/json.kt:36-61 | `NOT_AVAILABLE` is an error, and so are the end of input and any token that cannot start a value. Inside an object, a token other than a field name or `END_OBJECT` fails the requirement. |
| Json.DuplicateFieldOverwrites | hoplite-json/src/main/kotlin/com/sksamuel/hoplite/json/json.kt:59-66 | `{"a": 1, "a": true}` reads as a map whose only entry is `a` ↦ `true`, at `<root>.a`. |

## Left out

- Discovering decoders with `ServiceLoader` (`DecoderRegistry.kt:64`, `Decoder.kt:47`) is I/O. The discovered list is a parameter of `FromList`.
- Kotlin reflection is replaced by explicit descriptors (`KType`, `KClass`, `Param`).
  - The first constructor's `callBy` is a partial function in the context; `None` stands for its `IllegalArgumentException`.
  - Self-referential classes cannot be described, because types are finite trees.
- Registry.Resolve: a classifier that is not a class makes the source throw `RuntimeException`. This case is a precondition (`IsClass`) rather than an outcome.
  - The same holds for `SetDecoder`'s `require` on the number of type arguments, which is part of `WellFormed`.
- Decoding.BindParam, Decoding.DataClassDecode, Decoding.SetSafeDecode: `WellFormed` requires every classifier in the type tree to be a class. That includes every type argument and every parameter type of every nested class. The source throws only when it resolves a decoder for a type whose classifier is not a class (`DecoderRegistry.kt:54`), and it resolves only for a defined, non-null node. A type tree that holds a type parameter anywhere is therefore excluded, even where the source never resolves it. An example is `data class Box<T>(val v: T? = null)` decoding a map without `v`, or with `v` explicitly null.
- The `decoder(KClass)` overloads (`DecoderRegistry.kt:40-42`, `Decoder.kt:36-38`) are `decoder(type)` applied to `createType()`, plus an unchecked cast. They are not modelled separately.
- The interface that declares the default `priority()` of the newer decoders is not part of this model. `SetDecoder`'s priority is taken to be 0.
- The source of `DecoderContext` is not part of this model. `context.decoder(param)` is modelled as registry resolution of the parameter's type.
- `NullHandlingDecoder` is not part of this model. It is modelled by the same wrapper as `NonNullableDecoder`.
- `Node.atKey` and `isDefined` are not part of this model. They are modelled as the map entry, else `Undefined`, and as "not `Undefined`".
- LegacyDecoders.Decode: the registry argument of the older `decode` is not passed. The file decoders ignore it, and other older decoders are opaque leaves.
- Decoding.Decode: user decoders are opaque leaves. A user decoder that recursively resolves other decoders is not modelled.
- Converters.Convert: the converter registry (`converterFor`) and the constructor `call` are parameters. An exception from `call` is not modelled.
- Converters.EnumApply: the `Cursor` type is not part of this model. `cursor.string()` and `cursor.value()` are passed in, and constants are given by their `toString()` forms.
- `java.io.File` and `Paths.get` are not modelled. A file or path is the input string, and an `InvalidPathException` is not modelled.
- Json.MapOfFields / Model.MapNode: the order of a map node's members is not modelled. `json.kt:59` builds a `LinkedHashMap`, which iterates in first-insertion order. The model keeps a map, and the decoders look entries up by key only.
- Floating-point payloads are opaque bit patterns.
- Integers are unbounded. The 64-bit range of `valueAsLong` and of long nodes is not modelled.
- The Jackson lexer, comment handling and `JsonLocation` are abstracted.
  - Tokens arrive as a sequence, each with its line and column.
  - Errors are values holding the offending token's index, not exceptions with messages.
  - Jackson's own syntax errors are not modelled.
- Exception message texts and the constructor carried by `InvalidConstructorParameters` are not modelled.
- `FileSource.kt` is I/O, and `PrometheusConfigDecoder.kt` adapts a library interface. Both are outside this model, as are the YAML parser and the tests.
