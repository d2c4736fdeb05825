# YAMLParser parser registry, in Dafny

This project models the core of Fulminazzo's YAMLParser, a Java library that maps
YAML configuration trees to typed values through an ordered registry of
per-type parsers. The model covers four pieces:

- **The parser registry of `FileConfiguration`.** It is a class,
  `FileConfiguration.ParserRegistry`, whose one field `parsers: seq<Parser>` stands
  for the static `LinkedList` of the Java class. It has these methods:
  - `AddParsers`: registration that skips nulls and already-registered classes.
  - `RemoveParsers`: removal by target class.
  - `GetParsers`: normalisation, which keeps the structural fallback
    (`SerializableYAMLParser`) last.
  - `GetParser`: resolution by enum, array and configuration checks, then exact
    class, then the first assignable class.

  Each method is proved against a function on sequences (`AddAll`, `Without`,
  `Normalize`, `Resolve`). The lemmas state what the source promises about those
  functions. Java classes are `Parsers.TypeId` values. `isAssignableFrom` is a
  relation passed in as a parameter. A class counts as a configuration type when
  `IConfiguration` is assignable from it.
- **`FileUtils.formatStringToYaml`.** The CamelCase to kebab-case conversion is a
  method with the source's loop, proved equal to the function `Kebab`.
- **The path handling of `YAMLException`.** The exception is a record. It holds
  the kind of exception, the path, the field name and the offending object. The
  two-argument constructor's split of a dotted path and the `%path%` prefix of
  the message are modelled.
- **`SetYAMLParser`.** It has the target class `Set`. Its loader copies the
  collection loader's result into a set, and it fails on a null collection.

## Model

| member | source | states |
|---|---|---|
| FileConfiguration.ParserRegistry.constructor | src/main/java/it/fulminazzo/yamlparser/configuration/FileConfiguration.java:28 | the registry starts empty |
| FileConfiguration.AddAll | src/main/java/it/fulminazzo/yamlparser/configuration/FileConfiguration.java:135-139 | the old list is a prefix of the new one, which grows by at most one parser per argument |
| FileConfiguration.AddAllFrom | src/main/java/it/fulminazzo/yamlparser/configuration/FileConfiguration.java:136-138 | every parser in the new list was registered before or is one of the non-null arguments |
| FileConfiguration.AddAllCovers | src/main/java/it/fulminazzo/yamlparser/configuration/FileConfiguration.java:136-138 | afterwards the class of every non-null argument is registered |
| FileConfiguration.AddAllNewClasses | src/main/java/it/fulminazzo/yamlparser/configuration/FileConfiguration.java:137 | every appended parser declares a class not registered before the call, so nulls and duplicates of registered classes are skipped |
| FileConfiguration.AddAllDistinct | src/main/java/it/fulminazzo/yamlparser/configuration/FileConfiguration.java:137-138 | pairwise-distinct target classes stay pairwise distinct |
| FileConfiguration.AddAllFirstOfClassKept | src/main/java/it/fulminazzo/yamlparser/configuration/FileConfiguration.java:136-138 | within one call, the earliest argument of a class not yet registered gets in, and it is the only parser of that class afterwards, so later arguments of the same class are dropped |
| FileConfiguration.AddOneFallbacks | src/main/java/it/fulminazzo/yamlparser/configuration/FileConfiguration.java:137-138 | adding keeps at most one fallback registered |
| FileConfiguration.ParserRegistry.AddParsers | src/main/java/it/fulminazzo/yamlparser/configuration/FileConfiguration.java:135-139 | the loop over the arguments leaves the registry equal to `AddAll(old, args)` and keeps the invariant |
| FileConfiguration.AddAllConcat | src/main/java/it/fulminazzo/yamlparser/configuration/FileConfiguration.java:136-138 | arguments are handled strictly in order: one call with `a + b` equals a call with `a` followed by a call with `b` |
| FileConfiguration.AddAllRegistered | src/main/java/it/fulminazzo/yamlparser/configuration/FileConfiguration.java:137 | when every non-null argument's class is already registered, the registry is unchanged |
| FileConfiguration.AddAllIdempotent | src/main/java/it/fulminazzo/yamlparser/configuration/FileConfiguration.java:135-139 | registering the same parsers twice equals registering them once |
| FileConfiguration.AddAllFirstWins | src/main/java/it/fulminazzo/yamlparser/configuration/FileConfiguration.java:137-138 | a parser whose class was already registered never gets in: the first registration of a class wins |
| FileConfiguration.Without | src/main/java/it/fulminazzo/yamlparser/configuration/FileConfiguration.java:157 | removal never makes the list longer |
| FileConfiguration.WithoutMembers | src/main/java/it/fulminazzo/yamlparser/configuration/FileConfiguration.java:157 | a parser stays exactly when it was registered and its class is not removed |
| FileConfiguration.WithoutFallbacks | src/main/java/it/fulminazzo/yamlparser/configuration/FileConfiguration.java:157 | removal never adds a fallback |
| FileConfiguration.ParserRegistry.RemoveParsers | src/main/java/it/fulminazzo/yamlparser/configuration/FileConfiguration.java:155-158 | the registry ends equal to the old list without every class of a non-null argument |
| FileConfiguration.RemoveStep | src/main/java/it/fulminazzo/yamlparser/configuration/FileConfiguration.java:156-157 | one iteration of the removal loop extends the removed classes by the argument's class, and does nothing for a null argument |
| FileConfiguration.WithoutWithout | src/main/java/it/fulminazzo/yamlparser/configuration/FileConfiguration.java:156-157 | removing one class set after another equals removing their union at once |
| FileConfiguration.RemovedClassesGone | src/main/java/it/fulminazzo/yamlparser/configuration/FileConfiguration.java:155-158 | after removal, a parser is present iff it was present and no non-null argument declares its class |
| FileConfiguration.WithoutConcat | src/main/java/it/fulminazzo/yamlparser/configuration/FileConfiguration.java:157 | removal filters each part of the list independently, so the remaining parsers keep their relative order |
| FileConfiguration.WithoutUnrelated | src/main/java/it/fulminazzo/yamlparser/configuration/FileConfiguration.java:157 | removing classes that no registered parser declares changes nothing |
| FileConfiguration.WithoutNothing | src/main/java/it/fulminazzo/yamlparser/configuration/FileConfiguration.java:155-158 | removal with no non-null argument changes nothing |
| FileConfiguration.DropFallbacks | src/main/java/it/fulminazzo/yamlparser/configuration/FileConfiguration.java:224 | the fallbacks are removed and every other parser is kept |
| FileConfiguration.DropFallbacksConcat | src/main/java/it/fulminazzo/yamlparser/configuration/FileConfiguration.java:224 | dropping fallbacks filters each part of the list independently, in order |
| FileConfiguration.DropFallbacksIdempotent | src/main/java/it/fulminazzo/yamlparser/configuration/FileConfiguration.java:224 | dropping fallbacks twice equals dropping them once |
| FileConfiguration.Normalize | src/main/java/it/fulminazzo/yamlparser/configuration/FileConfiguration.java:222-228 | an empty list stays empty, with no fallback inserted. A non-empty list ends with the fallback. A list already ending with the fallback is unchanged. Non-fallback parsers are neither added nor lost |
| FileConfiguration.ParserRegistry.GetParsers | src/main/java/it/fulminazzo/yamlparser/configuration/FileConfiguration.java:222-228 | the registry becomes `Normalize(old)`, that list is returned, and the invariant is kept |
| FileConfiguration.NormalizeKeepsOrder | src/main/java/it/fulminazzo/yamlparser/configuration/FileConfiguration.java:224-225 | the non-fallback parsers form the same sequence before and after normalisation |
| FileConfiguration.NormalizeSingleFallback | src/main/java/it/fulminazzo/yamlparser/configuration/FileConfiguration.java:223-225 | with at most one fallback before, there is at most one after, and no parser other than the last is a fallback |
| FileConfiguration.NormalizeIdempotent | src/main/java/it/fulminazzo/yamlparser/configuration/FileConfiguration.java:223 | a second `getParsers()` changes nothing |
| FileConfiguration.TwoCopies | src/main/java/it/fulminazzo/yamlparser/configuration/FileConfiguration.java:223 | a parser at an inner position that equals the last one occurs at least twice, so a list ending in the fallback holds no earlier fallback when it holds at most one |
| FileConfiguration.FindFirst | src/main/java/it/fulminazzo/yamlparser/configuration/FileConfiguration.java:200-204 | `findFirst` returns nothing iff no parser passes the filter, and otherwise a registered parser that passes it |
| FileConfiguration.FindFirstIsFirst | src/main/java/it/fulminazzo/yamlparser/configuration/FileConfiguration.java:200-204 | `findFirst` returns the parser at the first index that passes the filter |
| FileConfiguration.FirstAccepting | src/main/java/it/fulminazzo/yamlparser/configuration/FileConfiguration.java:202-204 | when some parser passes a filter, a first one exists at or before it |
| FileConfiguration.Resolve | src/main/java/it/fulminazzo/yamlparser/configuration/FileConfiguration.java:195-205 | for a plain class, a returned parser is registered and its class equals the requested one or is assignable from it |
| FileConfiguration.ParserRegistry.GetParser | src/main/java/it/fulminazzo/yamlparser/configuration/FileConfiguration.java:195-205 | the result is `Resolve` over the registry. The registry is normalised exactly when the class is plain (the second `getParsers()` changes nothing) and is untouched otherwise |
| FileConfiguration.ResolveSpecialClasses | src/main/java/it/fulminazzo/yamlparser/configuration/FileConfiguration.java:196-199 | null and configuration classes get no parser, an enum gets a fresh `EnumYAMLParser` for it and an array a fresh `ArrayYAMLParser`. None of these answers depends on the registry |
| FileConfiguration.ResolveExactFirst | src/main/java/it/fulminazzo/yamlparser/configuration/FileConfiguration.java:200-201 | the first parser declaring exactly the requested class is returned |
| FileConfiguration.ResolveExactBeatsSupertype | src/main/java/it/fulminazzo/yamlparser/configuration/FileConfiguration.java:200-204 | when an exact match exists, the returned parser declares exactly the requested class, never a supertype |
| FileConfiguration.ResolveFirstSupertype | src/main/java/it/fulminazzo/yamlparser/configuration/FileConfiguration.java:202-204 | without an exact match, the first parser in list order whose class is assignable from the requested one is returned |
| FileConfiguration.ResolveNone | src/main/java/it/fulminazzo/yamlparser/configuration/FileConfiguration.java:200-204 | a plain class gets no parser iff no registered class equals it or is assignable from it |
| FileConfiguration.ResolveFallbackReachable | src/main/java/it/fulminazzo/yamlparser/configuration/FileConfiguration.java:223-225 | in a non-empty normalised registry, every plain Serializable class gets a parser |
| FileConfiguration.ResolveFallbackLast | src/main/java/it/fulminazzo/yamlparser/configuration/FileConfiguration.java:223-225 | under the registry invariant, a plain class other than Serializable resolves to the fallback only when no other parser declares it or is assignable from it |
| FileUtils.FormatStringToYaml | src/main/java/it/fulminazzo/yamlparser/utils/FileUtils.java:158-165 | the loop over the characters builds exactly `Kebab(s)` |
| FileUtils.KebabSnoc | src/main/java/it/fulminazzo/yamlparser/utils/FileUtils.java:160-163 | one more input character appends its dash, when it gets one, and itself lower-cased |
| FileUtils.KebabLength | src/main/java/it/fulminazzo/yamlparser/utils/FileUtils.java:160-163 | output length is input length plus the number of non-first characters equal to their upper-case form |
| FileUtils.KebabAt | src/main/java/it/fulminazzo/yamlparser/utils/FileUtils.java:161-162 | input character `i`, lower-cased, sits at `Pos(s, i)`, right after its own dash when it gets one |
| FileUtils.KebabShape | src/main/java/it/fulminazzo/yamlparser/utils/FileUtils.java:160-163 | output length is input length plus the number of non-first characters equal to their upper-case form. Each input character, lower-cased, sits at `Pos(s, i)`, right after its own dash when it gets one |
| FileUtils.PosIncreasing | src/main/java/it/fulminazzo/yamlparser/utils/FileUtils.java:162 | later input characters land further right, so the input order is kept |
| FileUtils.DashCountPrefix | src/main/java/it/fulminazzo/yamlparser/utils/FileUtils.java:161 | the dashes emitted for a prefix depend only on that prefix |
| FileUtils.DashCountMonotone | src/main/java/it/fulminazzo/yamlparser/utils/FileUtils.java:161 | the number of dashes emitted never decreases along the input |
| FileUtils.KebabEmpty | src/main/java/it/fulminazzo/yamlparser/utils/FileUtils.java:158-165 | the empty string maps to the empty string |
| FileUtils.KebabHead | src/main/java/it/fulminazzo/yamlparser/utils/FileUtils.java:161 | no dash comes before the first character: the output starts with it, lower-cased |
| FileUtils.KebabNoCapitals | src/main/java/it/fulminazzo/yamlparser/utils/FileUtils.java:162 | the output contains no ASCII capital |
| FileUtils.KebabLowerWord | src/main/java/it/fulminazzo/yamlparser/utils/FileUtils.java:158-165 | a string of lower-case ASCII letters maps to itself |
| FileUtils.KebabCamelCase | src/main/java/it/fulminazzo/yamlparser/utils/FileUtils.java:151-153 | "CamelCase" becomes "camel-case" |
| FileUtils.KebabDigitsAndDashes | src/main/java/it/fulminazzo/yamlparser/utils/FileUtils.java:161 | digits and punctuation also get a dash: "a1" becomes "a-1" and "a-b" becomes "a--b" |
| YamlExceptions.IndexOf | src/main/java/it/fulminazzo/yamlparser/exceptions/YAMLException.java:27 | `indexOf` gives -1 iff the character is absent, and otherwise the index of its first occurrence |
| YamlExceptions.LastIndexOf | src/main/java/it/fulminazzo/yamlparser/exceptions/YAMLException.java:26 | `lastIndexOf` gives -1 iff the character is absent, and otherwise the index of its last occurrence |
| YamlExceptions.Create | src/main/java/it/fulminazzo/yamlparser/exceptions/YAMLException.java:30-38 | the full constructor stores path, name and object unchanged |
| YamlExceptions.CreateEmptyArray | src/main/java/it/fulminazzo/yamlparser/parsers/exceptions/EmptyArrayException.java:17-19 | the empty-array exception stores path, name and object unchanged and is of kind `EmptyArray` |
| YamlExceptions.FromPath | src/main/java/it/fulminazzo/yamlparser/exceptions/YAMLException.java:25-28 | a dot-free path gives parent path "" and name equal to the input. A dotted path gives the text before its last dot as parent and the text after its first dot as name. The object is kept |
| YamlExceptions.SetPath | src/main/java/it/fulminazzo/yamlparser/exceptions/YAMLException.java:14-18 | only the path changes; kind, name and object stay |
| YamlExceptions.MessagePathPrefix | src/main/java/it/fulminazzo/yamlparser/exceptions/YAMLException.java:32 | the `%path%` text is empty for the empty path, and otherwise the path followed by one dot |
| YamlExceptions.FromPathIntended | src/main/java/it/fulminazzo/yamlparser/exceptions/YAMLException.java:25-28 | the corrected split: as `FromPath` for a dot-free path; for a dotted path the parent is the text before the last dot and the name the dot-free text after it. The object is kept |
| YamlExceptions.IntendedPrefixRestoresPath | src/main/java/it/fulminazzo/yamlparser/exceptions/YAMLException.java:32 | with the corrected split, the `%path%` text followed by the name spells the original path when it does not start with a dot |
| YamlExceptions.FromPathSingleDot | src/main/java/it/fulminazzo/yamlparser/exceptions/YAMLException.java:25-28 | on paths with at most one dot the code as written agrees with the corrected split |
| YamlExceptions.FromPathTwoDots | src/main/java/it/fulminazzo/yamlparser/exceptions/YAMLException.java:26-27 | "a.b.c" gives parent "a.b" and name "b.c", so the `%path%` text followed by the name reads "a.b.b.c" |
| SetYamlParser.SetParserTarget | src/main/java/it/fulminazzo/yamlparser/parsers/SetYAMLParser.java:23-25 | the declared target class is `Set`, and the parser is not the fallback |
| SetYamlParser.SetParserResolves | src/main/java/it/fulminazzo/yamlparser/parsers/SetYAMLParser.java:23-25 | once registered, and as long as no other parser declares exactly `Set`, it is the parser resolved for `Set`, whatever duplicates the rest of the registry holds |
| SetYamlParser.ToSet | src/main/java/it/fulminazzo/yamlparser/parsers/SetYAMLParser.java:36 | the set holds exactly the collection's elements |
| SetYamlParser.Load | src/main/java/it/fulminazzo/yamlparser/parsers/SetYAMLParser.java:33-38 | a failure of the collection loader is passed on. A null collection fails. Otherwise the set's members are exactly the collection's elements |
| SetYamlParser.ToSetSize | src/main/java/it/fulminazzo/yamlparser/parsers/SetYAMLParser.java:36 | duplicates collapse: the set is no larger than the collection, and equally large iff the collection has no duplicates |
| SetYamlParser.LoadIgnoresOrder | src/main/java/it/fulminazzo/yamlparser/parsers/SetYAMLParser.java:36 | collections that are permutations of each other load to equal sets |

## Findings

| source | as written | input that shows it | evidently intended | confidence | as-written member | corrected member |
|---|---|---|---|---|---|---|
| src/main/java/it/fulminazzo/yamlparser/exceptions/YAMLException.java:26-27 | the parent path is cut at the last dot, but the name is cut at the first dot | path "a.b.c": parent "a.b", name "b.c", so the `%path%` text followed by the name reads "a.b.b.c" | the name is the last segment "c", so that the `%path%` text followed by the name gives back "a.b.c" | medium, not executed | YamlExceptions.FromPathTwoDots | YamlExceptions.IntendedPrefixRestoresPath |

`YamlExceptions.FromPath` keeps the code as written, because the rest of the
library sees exceptions built this way. `YamlExceptions.FromPathIntended` is the
corrected split. `YamlExceptions.FromPathSingleDot` shows that the two agree on
every path with at most one dot. What the finished message shows also depends on the
`LogMessage` template, which is not part of this model: the proved fact is
about the `%path%` text followed by the name.

## Left out

- Fallback invariant: the registry's invariant (`Valid`) is "at most one fallback".
  It is not "classes pairwise distinct". Normalisation appends the fallback even
  when another parser already declares `Serializable`.
- FileConfiguration.NormalizeSingleFallback: requires at most one fallback before
  the call. A list such as [fallback, A, fallback] ends with the fallback, so
  `getParsers()` leaves it as it is. No sequence of the modelled operations
  produces such a list.
- Object identity: parsers are values. A "fresh" `SerializableYAMLParser`,
  `EnumYAMLParser` or `ArrayYAMLParser` equals any other of the same kind. The
  list returned by `getParsers()` is a copy, not an alias through which callers
  could mutate the registry.
- The target class of `ArrayYAMLParser` and `SerializableYAMLParser`: those
  parsers are not part of this model. The constants `ArrayParserType` and
  `SerializableType` stand for them.
- The FileConfiguration constructors, `save`, `newYaml`, `fromString` and
  `toString`: they are file and stream I/O plus the SnakeYAML encoder and
  decoder, which are not part of this model.
- `getParsersFromPackage`, `addParsers()` and the package-name overloads of
  `addParsers` and `removeParsers`: they do classpath scanning and reflective
  instantiation. The model takes explicit parser lists instead.
- Every other FileUtils method (create, copy, rename and delete of files and
  folders, `compareTwoFiles`): filesystem I/O.
- FileUtils.FormatStringToYaml: upper and lower case are ASCII only. Other
  characters count as their own upper-case form. Locale-dependent and
  length-changing case mappings are not modelled.
- FileUtils.FormatStringToYaml: the source splits an empty string into one empty
  piece and appends it. The model does not loop over it, since the result ("")
  is the same.
- The human-readable message of every exception, built by the `LogMessage`
  formatter, including the `%name%`, `%object%` and `%message%` substitutions.
  `EmptyArrayException` is only the exception kind `EmptyArray`.
- `UnexpectedClassException`: it extends a `YAMLException` of another package,
  with another `LogMessage`, which is not part of this model.
- The internals of the collection, enum, array and structural parsers: they
  appear only as tags with their target classes. `SetYamlParser.Load` takes the
  collection loader's outcome as input.
- Hash-set behaviour of `HashSet`: elements are Dafny values with value
  equality, not objects with `equals` and `hashCode`.
- Thread-safety of the static registry: modelled as single-threaded state.
- The configuration tree, `IConfiguration.generalToConfigMap` and
  `configToGeneralMap` are not part of this model.
