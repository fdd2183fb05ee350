# go2proto, modelled in Dafny

go2proto reads the type information of a Go package and collects what a
protobuf file needs:
- one message per exported struct of the package, with one field per
  exported struct member;
- one enum per enum type, holding the values of its constants;
- one map declaration per named map type;
- the import paths of the structs that come from other packages.

This project models that collection step and the helpers it relies on.

The catalog (`packageInfo.go`, module `Catalog`) is a mutable object, so
`Catalog.PackageInfo` is a class:
- `AddType` dispatches each declaration to `addMessage`, `addEnum` or
  `addMap`, then runs the naming hooks of `protoHelper.go` on the result.
- `Canonicalize` canonicalises every enum and sorts the messages by name.
- The class invariant `Valid` says that there are as many type strings
  marked seen as messages and imports together, and that no enum object
  is stored under two names. The contracts of `AddStruct` and `AddType`
  say which string gave which message or import.
- The enums (`enums.go`, module `Enums`) and the messages and fields
  (`message.go`, `field.go`, modules `Messages` and `Schema`) are classes
  as well, because the hooks and `Canonicalize` update them in place.

The string and type helpers of `helpers.go` (module `Helpers`) are pure
functions, each with its own contract, over:
- a small view of `go/types` (module `GoTypes`): a type's `String()`, its
  underlying type's `String()` and shape, and the members of a struct;
- Go's string functions (module `GoStrings`).

`main.go` contains an older, single-function version of the same pass
(`getMessagesForPackage`). It is modelled separately, as module `Legacy`,
on values. The whole loop is specified by a function `Collect` over the
sequence of definitions, and the method that runs the loop is proved equal
to it. Lemmas then describe what it returns:
- the messages are those of the first occurrences of the own-package
  structs, in order, and the imports the packages of the first
  occurrences of the foreign ones (`Legacy.CollectedStructs`);
- before the final loop, every enum holds the parsed values of its
  constants in the order read (`Legacy.CollectedEnums`);
- afterwards, it holds the same values, each as often as parsed, sorted
  and flagged (`Legacy.ReturnedEnums`).

Things the model makes explicit:
- Messages and enum values are sorted by a generic insertion sort with a
  key (module `Sorting`), proved sorted and a permutation. The comparison
  functions are proved to be strict orders. Sorted permutations of the
  same enum values agree, so for enum values the unstable `sort.Slice` of
  the source does not change the result. Two messages may share a name,
  so for messages it can (see "Left out").
- Enum values are Go `int64`. The `*pLastValue + 1` in the gap test of
  `enums.go:60` wraps around (`GoTypes.AddWrap`). That test sits inside
  the branch where the value equals the previous one. Together these mean
  `HasGaps` becomes true only when `MaxInt64` occurs twice. `EnumFlags`
  proves this, and `AllowAlias` holding iff two values are equal.
- `enums.go` parses enum values with base 0, but `main.go:207` parses them
  with base 10.
- `normalizeType` in `helpers.go` maps `int`, `int32` and `int64` to
  `int64`. The one in `main.go` maps only `int`, so there `int32` keeps its
  name. `Legacy.NormalizeTypeVersions` proves that this is the only name on
  which the two disagree.
- A field's `Order` is its index among all members of the struct, plus
  one. Unexported members therefore leave gaps in the numbering
  (`Messages.FieldOrders`).
- Imports are appended once per foreign struct type. They are not
  deduplicated by package, so a package appears once per struct type taken
  from it.

Two places in the source are modelled as their evident meaning, because as
written they would not compile:
- `packageInfo.go:158` calls `CreateMessage`, while `message.go` defines
  `createMessage`. `Catalog.PackageInfo.AddMessage` calls
  `Messages.CreateMessage`.
- `Enum.AddValue` (`enums.go:20`) is declared with the single result `err`,
  but `addEnum` (`packageInfo.go:167`) receives two results from it. The
  model's `Enums.Enum.AddValue` returns the value it appended together with
  the error. That is the pair `addEnum` expects, and the value is the one
  the `OnEnumValue` hook is then applied to.

## Model

| member | source | states |
|---|---|---|
| GoStrings.LastIndex | helpers.go:109 | strings.LastIndex: -1 or an index holding the separator, with no separator after it |
| GoStrings.Split | helpers.go:49 | strings.Split yields at least one part, and the last part is the text after the last separator |
| GoStrings.LastPart | helpers.go:49-51 | the last part has no separator; it is the whole string when there is none, and otherwise the string is the prefix before the last separator, the separator, then the last part |
| GoStrings.SplitJoin | helpers.go:49 | joining the parts of a split with the separator gives back the string, and no part holds the separator |
| GoStrings.LastPartOfJoined | helpers.go:84-86 | for a + "." + b with no '.' in b, the last separator is at \|a\| and the last part is b |
| GoStrings.LastIndexOfJoined | helpers.go:109 | the last separator of a + [c] + b, when b has none, is at \|a\| (proved by induction on b) |
| GoStrings.TrimLeft | helpers.go:34 | strings.TrimLeft: the result is a suffix, every removed character is in the cutset, and the result does not start with one |
| GoStrings.ToLower | helpers.go:102 | strings.ToLower keeps the length and lowers each character |
| GoStrings.LessIrreflexive | packageInfo.go:99 | Go's string < is irreflexive |
| GoStrings.LessTransitive | packageInfo.go:99 | Go's string < is transitive |
| GoStrings.LessTotal | packageInfo.go:99 | any two different strings are ordered one way or the other |
| GoStrings.LessAsymmetric | packageInfo.go:99 | a < b excludes b < a |
| GoStrings.Less | packageInfo.go:99 | Go's byte-wise string <: a proper prefix is smaller, otherwise the first differing character decides |
| GoTypes.AddWrap | enums.go:60 | int64 addition: congruent to the exact sum modulo 2^64, and equal to it when the sum is in range |
| Helpers.IsStruct | helpers.go:12-15 | isStruct: the declaration's underlying type is a struct |
| Helpers.IsConst | helpers.go:17-20 | isConst: the declaration is a constant |
| Helpers.IsMap | helpers.go:22-25 | isMap: the declaration's underlying type is a map |
| Helpers.IsRepeated | helpers.go:95-98 | isRepeated: the member's underlying type is a slice |
| Helpers.GetPackageFromType | helpers.go:108-117 | without a '.' the whole type string; otherwise the type string is the result, a '.', and the part after the last '.' |
| Helpers.SplitTypeNameHelperStr | helpers.go:47-57 | the part after the last '.', without one leading '*'; the result has no '.' |
| Helpers.SplitTypeNameHelper | helpers.go:59-73 | the same name as splitTypeNameHelperStr on the type's string |
| Helpers.TypeNameRoundTrip | helpers.go:47-57 | package + "." + simple name gives back a qualified type string whose last part has no '*' |
| Helpers.NormalizeType | helpers.go:75-93 | the result is the name itself or has no '.' |
| Helpers.ScalarsHaveNoDot | helpers.go:76-82 | the proto scalar names contain no '.' |
| Helpers.NormalizeTypePrimitives | helpers.go:76-82 | int, int32 and int64 map to int64, float32 to float, float64 to double |
| Helpers.NormalizeTypeOwnPackage | helpers.go:84-86 | a type of the package's own path becomes its simple name |
| Helpers.DottedNotPrimitive | helpers.go:76-82 | a name containing '.' is none of the Go primitive names |
| Helpers.NormalizeTypeForeign | helpers.go:87-89 | a non-primitive type of another package keeps its full name |
| Helpers.ToProtoFieldName | helpers.go:100-106 | a two-character name is lowered character by character; any other goes to strcase.ToSnake |
| Helpers.ToProtoFieldTypeName | helpers.go:27-45 | basic types normalised; slices by the normalised element name without "[]"; pointers and structs by the normalised simple name, which has no '.'; an unnamed map as map<key,elem>; anything else by its type string |
| Schema.Field.constructor | field.go:5-12 | a field record holds exactly the member, names, order, repetition and json name it is given |
| Messages.Message.constructor | message.go:16-22 | NewMessage: the name and struct given, no fields |
| Messages.ExportedIndices | message.go:27-31 | every index kept is in range and names an exported member |
| Messages.ExportedIndicesExact | message.go:27-31 | the kept indices are strictly increasing and include every exported member (proved by induction) |
| Messages.JsonName | message.go:33-39 | the json key of a tag that parses and has one, else "" |
| Messages.CreateMessage | message.go:24-53 | a fresh message with the struct's name, one fresh and distinct field per exported member in member order, each built from its member with Order = index + 1 |
| Messages.FieldOrders | message.go:45 | field orders are within 1..\|members\|, strictly increasing, name exported members, and cover every exported member |
| Messages.ExportedStep | message.go:27-31 | one more member adds its index exactly when it is exported |
| Sorting.Insert | enums.go:39-44 | inserting into a sorted sequence keeps it sorted and adds exactly one element |
| Sorting.InsertFront | enums.go:39-44 | an element below the head of a sorted sequence can go in front |
| Sorting.InsertBehind | enums.go:39-44 | an element not below the head goes into the sorted tail |
| Sorting.Sort | enums.go:39-44 | the result is sorted by the key order and is a permutation of the input |
| Sorting.SortedRemove | enums.go:39-44 | removing one element keeps a sequence sorted |
| EnumFlags.ZeroStep | enums.go:52-55 | the zero test after one more value is the old test or that value being 0 |
| EnumFlags.AdjacentEqualStep | enums.go:57-58 | the alias test after one more value is the old test or that value equal to the previous one |
| EnumFlags.WrappedGapStep | enums.go:57-62 | the gap test after one more value is the old test or the int64 gap test on the last pair |
| EnumFlags.AdjacentEqualIffRepeated | enums.go:57-58 | on sorted values, two adjacent equal values exist iff some value occurs twice |
| EnumFlags.WrappedGapOnlyAtMax | enums.go:57-62 | the gap test holds iff two adjacent values are both MaxInt64 |
| EnumFlags.WrappedGapIffMaxRepeated | enums.go:57-62 | on sorted values, HasGaps is set iff MaxInt64 occurs twice |
| Enums.ValueLessIsStrictOrder | enums.go:39-44 | the (Value, Name) comparison of Canonicalize is a strict order |
| Enums.ValueLess | enums.go:39-44 | the less function of Canonicalize: by Value, then by Name among equal values |
| Enums.SameKey | enums.go:39-44 | values neither below the other have the same number and name |
| Enums.SortByValue | enums.go:39-44 | the values sorted by (Value, Name), and a permutation of them |
| Enums.ValuesOf | enums.go:52 | the numbers of the values, in order |
| Enums.SortedValuesNonDecreasing | enums.go:39-44 | values sorted by (Value, Name) have non-decreasing numbers |
| Enums.CanonicalFlags | enums.go:37-68 | after Canonicalize: MissingDefault iff no value is 0; AllowAlias iff it was set or two values share a number; HasGaps iff it was set or MaxInt64 occurs twice |
| Enums.ZeroIffZeroValue | enums.go:47-55 | a permutation of the values has a 0 iff the original values do |
| Enums.KeyRun | enums.go:39-44 | in a sorted sequence, everything before an element equal to the head in key is equal to it too |
| Enums.RemoveFromRun | enums.go:39-44 | removing an element of the leading run of equal keys shifts the rest unchanged |
| Enums.SortedPermutationsAgree | enums.go:39-44 | two sorted permutations of the same values agree in number and name position by position, so the unstable sort is deterministic on these fields |
| Enums.RemoveMatching | enums.go:39-44 | removing the matching element from both sides keeps two multisets equal |
| Enums.CanonicalizeIdempotent | enums.go:37-68 | canonicalising twice gives the same values and flags as canonicalising once |
| Enums.Enum.constructor | enums.go:11-18 | a new enum has the given name and object, no values, and no flags set |
| Enums.Enum.AddValue | enums.go:20-35 | a value that parses in base 0 is appended under the SCREAMING_SNAKE name of its constant; a parse failure returns the error and changes nothing |
| Enums.Enum.Canonicalize | enums.go:37-68 | the values become the sorted permutation of the old ones, and the flags are those the scan computes from them |
| Enums.Enum.ScanFlags | enums.go:46-67 | the loop sets MissingDefault iff no value is 0, and adds to AllowAlias and HasGaps the adjacent-equal and wrapped-gap tests |
| ProtoHelper.OnMessage | protoHelper.go:11 | the message is left unchanged |
| ProtoHelper.OnField | protoHelper.go:13-16 | the field's display names become those of its member, and a field already displaying them is unchanged |
| ProtoHelper.BuiltFieldDisplays | protoHelper.go:13-16 | a field built by createMessage already displays its member's names |
| ProtoHelper.OnEnumValue | protoHelper.go:18-20 | the value renamed from its constant; its number and constant are kept |
| ProtoHelper.OnEnumValueFixes | protoHelper.go:18-20 | renaming is idempotent and leaves a value built by AddValue as it was |
| ProtoHelper.OnMap | protoHelper.go:22-24 | the map is unchanged |
| Catalog.NameLessIsStrictOrder | packageInfo.go:99 | comparing messages by name is a strict order |
| Catalog.SortByName | packageInfo.go:97-100 | the messages sorted by name, a permutation of the input of the same length |
| Catalog.MapOf | packageInfo.go:185-192 | the map record carries the type's name and its key and element types and their underlying types |
| Catalog.PackageInfo.constructor | packageInfo.go:27-37 | NewPackageInfo: the package's name and path, empty seen set, messages, imports, enums and maps; the invariant holds |
| Catalog.PackageInfo.IsPackageType | packageInfo.go:46-52 | true iff the type string is the package path followed by '.' and a simple name, or, without a '.', the path itself |
| Catalog.PackageInfo.GetEnum | packageInfo.go:63-74 | an existing enum is returned unchanged; otherwise a fresh empty one is stored under the name and nothing else changes |
| Catalog.PackageInfo.GetEnumForType | packageInfo.go:78-89 | an enum is got or created exactly for an enum constant of this package; a created one is fresh, named after the enum type, holds the constant as object, has no values and no flags, and is the only new entry; otherwise nothing changes |
| Catalog.PackageInfo.ShouldAddMessage | packageInfo.go:104-122 | true iff an unseen struct of its own package; an unseen struct is marked seen, and a foreign one appends its package to Imports |
| Catalog.PackageInfo.AddMessage | packageInfo.go:156-163 | an admitted struct appends a fresh message whose fields are built from its exported members; the invariant holds and no error is returned |
| Catalog.PackageInfo.AddEnum | packageInfo.go:165-173 | for an enum constant the enum is got (same object, same flags) or created (fresh, named, with the constant as object, no flags), and the parsed value appended, or the wrapped parse error returned and the values kept; no other enum changes; anything else changes nothing |
| Catalog.PackageInfo.AddMap | packageInfo.go:175-197 | a non-map is an error; a known name changes nothing; otherwise exactly one new entry for the name |
| Catalog.PackageInfo.AddType | packageInfo.go:124-154 | the struct branch as AddStruct; the constant branch as AddConst; the map branch as AddMap; every branch but the enum constant leaves every enum unchanged, and the effects on seen, messages, imports, enums and maps are stated per branch |
| Catalog.PackageInfo.AddStruct | packageInfo.go:126-137 | the struct branch: an unseen string is marked seen, and its package appended to Imports when it is foreign; an admitted struct appends one fresh message whose fields are still as built after the hooks; enums and maps unchanged |
| Catalog.PackageInfo.AddConst | packageInfo.go:139-144 | the constant branch: addEnum's effect on the enums, with the appended value unchanged by the OnEnumValue hook; a non-enum constant changes nothing |
| Catalog.PackageInfo.MessageHooks | packageInfo.go:130-136 | OnMessage and OnField on each field leave every freshly built field unchanged |
| Catalog.PackageInfo.CanonicalizeEnums | packageInfo.go:91-95 | every enum is canonicalised from its own previous state |
| Catalog.PackageInfo.CanonicalizeMessages | packageInfo.go:97-100 | the messages become sorted by name, as a permutation of the old ones |
| Catalog.PackageInfo.Canonicalize | packageInfo.go:40-43 | every enum canonicalised and the messages sorted, keeping the invariant |
| Legacy.NormalizeType | main.go:338-356 | the result is the name itself or has no '.' |
| Legacy.NormalizeTypeVersions | main.go:338-356 | main.go's normalizeType agrees with helpers.go's on every name except "int32", which main.go keeps |
| Legacy.Int32Kept | main.go:339-345 | main.go keeps "int32" while helpers.go maps it to "int64" |
| Legacy.PlainNameKept | main.go:346-352 | a plain name other than int, float32 and float64 is kept by main.go's normalizeType |
| Legacy.ToProtoFieldTypeName | main.go:290-308 | the same case split as helpers.go, over main.go's normalizeType: basic types normalised, slices by the normalised element name without "[]", pointers and structs by the normalised simple name, unnamed maps as map<key,elem>, anything else by its type string |
| Legacy.FieldOf | main.go:277-283 | a member's field has Order = index + 1 and is repeated iff the member is a slice |
| Legacy.BuildMessage | main.go:257-285 | the message has the struct's name and one field per exported member, in order, with Order = member index + 1 and the member's repetition |
| Legacy.AppendMessage | main.go:257-288 | the loop appends exactly the message BuildMessage describes |
| Legacy.ReadConst | main.go:189-195 | a constant is read into an enum iff it is exported, not a struct, of underlying type "int" exactly, and of this package |
| Legacy.Step | main.go:166-215 | one iteration: nil and unexported definitions and seen structs are skipped; an unseen struct is marked seen and gives an import when foreign, else a message; a constant is read into the enums |
| Legacy.Collect | main.go:165-217 | the state after reading the definitions in order, from the empty state |
| Legacy.CollectCounts | main.go:173-186 | there are as many type strings seen as messages and imports together |
| Legacy.ImportsFromForeignStructs | main.go:180-184 | every import is the package of an exported struct of another package among the definitions |
| Legacy.LastFirstOf | main.go:174-176 | the last definition is the first occurrence of its struct type string exactly when no earlier exported struct has it |
| Legacy.StructStringsSnoc | main.go:178 | one more exported struct adds its type string to the strings seen, and any other definition adds none |
| Legacy.CollectedSeen | main.go:173-178 | the seen set after the loop is exactly the set of type strings of the exported structs |
| Legacy.CollectedStructs | main.go:173-186 | the messages are BuildMessage of the first occurrences of the own-package exported structs, in order, and the imports the packages of the first occurrences of the foreign ones, in order; repeated strings give nothing |
| Legacy.ApplyReadsContents | main.go:198-210 | after a sequence of reads, an enum exists exactly for the names read; it carries its name and no flags; and its values are the values parsed for it, in the order read |
| Legacy.ValuesReadMembers | main.go:207-210 | a value is among those read for an enum exactly when some read of that enum parsed to it |
| Legacy.Reads | main.go:165-215 | one read per definition, in order |
| Legacy.CollectEnumsAgree | main.go:165-217 | the enums of the whole loop are those of the constant reads alone; structs never touch them |
| Legacy.CollectedEnums | main.go:165-217 | before finalising, the enums are exactly those of the admitted constants, named after their simple type names, each holding the parsed values of its constants in the order of the definitions |
| Legacy.ReadsInOrder | main.go:189-215 | applying the reads of the definitions gives exactly the enums of the admitted constants, each with its parsed values in order |
| Legacy.ParsedOne | main.go:195-210 | at most one value, and a value is in it exactly when the definition is an admitted constant of that enum type parsing to it |
| Legacy.ParsedForMembers | main.go:195-210 | a value is among the parsed values of an enum type exactly when some admitted constant of that type parsed to it |
| Legacy.ReadsValues | main.go:195-210 | the values read for an enum from the reads of the definitions are the parsed values of its admitted constants, in order |
| Legacy.ValuesOf | main.go:231-247 | the numbers of the values, in order |
| Legacy.ValueLessIsStrictOrder | main.go:224-229 | the (Value, Name) comparison is a strict order |
| Legacy.ValueLess | main.go:224-229 | the less function of the enum loop: by Value, then by Name among equal values |
| Legacy.SortValues | main.go:224-229 | the values sorted by (Value, Name), and a permutation of them |
| Legacy.SortMessages | main.go:220 | the messages sorted by name, and a permutation of them |
| Legacy.FinalizeEnumFlags | main.go:222-251 | a finalised enum keeps its name and values, sorted; MissingDefault iff no value is 0; AllowAlias iff two values share a number |
| Legacy.SortedValuesNonDecreasing | main.go:224-229 | values sorted by (Value, Name) have non-decreasing numbers |
| Legacy.ZeroIffZeroValue | main.go:231-236 | a permutation of the values has a 0 iff the original values do |
| Legacy.Finalize | main.go:218-251 | the returned messages are sorted by name and a permutation of those collected; the enums keep their keys |
| Legacy.FinalizeAll | main.go:222-251 | every enum finalised under the same key |
| Legacy.FinalizeEnum | main.go:222-251 | one enum of the final loop: values sorted by (Value, Name), then MissingDefault and AllowAlias set from the sorted values |
| Legacy.ReturnedEnums | main.go:162-255 | the enums returned: exactly one per enum type of an admitted constant, holding its parsed values each as often as parsed, sorted, and flagged as above |
| Legacy.FinalizedGathered | main.go:222-251 | finalising enums read in order keeps each one's parsed values as a multiset, and makes them sorted and flagged |
| Legacy.FinalizedEnums | main.go:222-251 | finalising keeps the keys, the names and the multiset of values of every enum, and sorts and flags each |
| Legacy.SameMembers | main.go:224-229 | sorting keeps the members of a sequence |
| Legacy.ScanValues | main.go:231-247 | the scan loop finds a 0 iff one is present, and an alias iff two adjacent values are equal |
| Legacy.GetMessagesForPackage | main.go:162-255 | the loop over the definitions, the message sort and the enum loop return exactly the finalised Collect of the definitions |
| Legacy.ReadDefinition | main.go:166-215 | one loop iteration is one Step of Collect |
| Legacy.AddConstant | main.go:195-210 | an admitted constant's enum is found or created under its simple type name, and its base-10 value appended when it parses |
| Legacy.RecordConstant | main.go:198-210 | find or create the enum, then append the parsed value if any |
| Legacy.FinalizeEnums | main.go:222-251 | the enum loop leaves every enum sorted and flagged, each under its key |

## Left out

- The command-line front end and package loading (`main.go:23-103`) and the output writer with its templates (`main.go:374-425`) are not part of this model. `langHelper.go` only declares the hook interface.
- `go/types` and `golang.org/x/tools/go/packages` are replaced by the `Decl`/`GoType`/`Member` view in `GoTypes`. The definitions of a package arrive as a sequence in an arbitrary order, which stands for Go's map iteration order. A nil definition is `None`.
- The foreign functions are parameters (`GoTypes.Foreign`), with no contract beyond their types: strcase's `ToSnake` and `ToScreamingSnake`, structtag's `Parse`, `strconv.ParseInt`, and `isEnumType` and `getEnumTypeName`, whose code is not part of this model.
- Error texts from `fmt.Errorf` are modelled as `Error` values (`ParseIntError`, `EnumValueError`, `NotAMap`); their message strings are not modelled. The `Printf` diagnostics and the `spew.Dump` of `main.go` are left out, because they only print.
- Strings are sequences of characters. Go's byte-wise comparison and `strings.ToLower` are modelled for single-byte characters only; multi-byte UTF-8 is not modelled.
- Catalog.PackageInfo.IsPackageType: the nil check of `packageInfo.go:47` is not modelled; a `Decl` is never nil.
- Enums.Enum.constructor: `NewEnum` is not part of this model. The constructor takes the enum's name from its caller (`GetEnum` passes the enum type name) and stores the object as `Object`.
- ProtoHelper.OnEnumValue: modelled on values, because it only renames. `Catalog.PackageInfo.AddType` proves its rename is a no-op on a freshly added value instead of writing it back.
- The hooks take the package path and the foreign functions instead of the catalog itself, and only the `protoHelper` implementation of the hook interface is modelled.
- Catalog.PackageInfo.CanonicalizeEnums: the enums are visited in an arbitrary order, which stands for Go's map iteration order. The ensures clause states each enum's result, and that does not depend on the order.
- Legacy.GetMessagesForPackage: the requirement `AllDefined` asks that no admitted constant has an empty simple type name and that every struct's members have proto type names. It asks this of every definition, including a struct whose type string was seen before, for which main.go would never build a message. It is therefore slightly stronger than what the source needs.
- Legacy.FinalizeEnums: the enums are visited in an arbitrary order; the result does not depend on it.
- Legacy.GetMessagesForPackage: `sort.Slice` (`main.go:220`) is not stable, and two messages may share a name. Go may return such messages in any order that keeps the sequence sorted; the model returns the one order its insertion sort gives.
- Catalog.PackageInfo.CanonicalizeMessages: states that the messages end up sorted by name and a permutation of the old ones. That admits every order of equal-named messages that `sort.Slice` (`packageInfo.go:97-100`) may produce, and fixes none.
- Go panics are modelled as preconditions. `splitTypeNameHelperStr` and `splitTypeNameHelper` index `name[0]`, which panics on an empty last segment (`helpers.go:53`, `helpers.go:65`, `main.go:316`, `main.go:328`). The callers therefore require that no such name reaches them: `Helpers.NormalizeDefined`, `Helpers.FieldTypeNameDefined`, `Messages.MembersDefined`, `Catalog.PackageInfo.MessageDefined`, `Legacy.Defined`, `Legacy.AllDefined` and `Legacy.EnumsDefined`. The panic itself is not modelled.
