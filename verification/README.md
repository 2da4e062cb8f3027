# gofigure back end in Dafny

A model of the semantic back end of the gofigure configuration compiler: the
fixed pipeline of tree rewrites that `FigureConfig.Transform` runs on a parsed
configuration, and the two string helpers of the parser that split dotted
identifiers and `%{a,b}` expansion macros.

The pipeline, in order:

1. **Include splicing** (`parseIncludesAndAppendToConfig`). The intended behaviour is that each include entry is replaced in place by the entries of the files it names. The Go code does this only for includes of one file; an include of two or more files panics (see "## Findings"). `Pipeline.Transform` runs the intended splice, and `Pipeline.TransformAsWritten` runs the splice as written. Reading and parsing a file is an abstract `Loader` parameter.
2. **Section expansion** (`expandToFields`, `explodeSectionsToFields`). A section `[r.c1.….cn] body` becomes one top-level field per root name. Each child link adds one map level, and the section's own field list is innermost.
3. **Dotted-key flattening** (`childFieldsToMap`). A top-level `a.b.c: v` becomes `a: {b: {c: v}}`.
4. **Reference resolution** (`reverseIdentifiers`, `findIdentifierInConfig`, `findIdentifierInMap`). Every identifier value is replaced by what it names among the entries up to and including its own.
5. **Copy pass** (`fieldsToArrays`). It rebuilds the tree and is the identity on parser-shaped fields.
6. **Conversion** (`toMap`, `toFinalValue`, `mergeMapsOfInterface`). This produces a string-keyed tree, with deep merge of repeated map keys, the `@` broadcast key and bare-key nulls.

The helpers `keysAreSequential`, `getLargestKey` (over Go's `strconv.Atoi` on a 64-bit platform), `mergeValues` and `lookupIdentifierInRoot` are modelled as well.

Every Go panic is an `Err` of `Ast.Error`; the passes are total functions over immutable datatypes.

Modules, one per file:

| file | module | contents |
|---|---|---|
| results.dfy | `Results` | `Option`, `Result` |
| strings.dfy | `Strings` | `strings.Split` / `strings.Join` on one character |
| seqs.dfy | `Seqs` | generic facts about sequence slicing and concatenation |
| ast.dfy | `Ast` | entries, sections, fields, values, errors |
| identifiers.dfy | `Identifiers` | `splitIdentifiers`, `isValidExpansionMacro`, `splitExpansionMacro` |
| buffers.dfy | `Buffers` | the one-slot-per-entry buffers of the two splice loops |
| includes.dfy | `Includes` | include splicing, as intended and as written |
| sections.dfy | `Sections` | section expansion and explosion |
| childfields.dfy | `ChildFields` | dotted-key flattening |
| references.dfy | `References` | reference lookup and resolution |
| arrays.dfy | `Arrays` | `strconv.Atoi`, `keysAreSequential`, `getLargestKey`, `fieldsToArrays`, `mergeValues` |
| tree.dfy | `Tree` | `toFinalValue`, `mergeMapsOfInterface`, `toMap`, `lookupIdentifierInRoot` |
| pipeline.dfy | `Pipeline` | `Transform` as intended and as written, and the cases of json_test.go |

Notes on the code's behaviour:

- A bare top-level key stores nil in the output; it is not dropped.
- A later non-map value for an existing top-level key is ignored; it does not replace the earlier value.
- `fieldsToArrays` never turns numerically keyed maps into lists. It copies the tree unchanged.
- Only the child chains of top-level fields are flattened. A dotted key inside a map literal or a section body keeps its chain, has no value, and so is deleted by `toFinalValue`.
- Identifiers inside list values are not resolved: `reverseIdentifiersInList` is never called.
- A multi-line string becomes an empty map in `toFinalValue`, because that function only looks at the identifier, map, float, integer and string alternatives.

## Model

| member | source | states |
|---|---|---|
| Strings.Split | postprocessor.go:166 | `strings.Split` on one separator: one more piece than separators, and no piece contains the separator |
| Strings.JoinSplit | postprocessor.go:166 | joining the pieces of a split with the separator gives back the original string |
| Strings.SplitJoin | postprocessor.go:166 | splitting a join of separator-free pieces gives back the pieces |
| Strings.SplitNoSeparator | postprocessor.go:13 | a string without the separator splits into itself alone |
| Strings.SplitSingle | postprocessor.go:13 | a string that splits into one piece has no separator and is that piece |
| Identifiers.SplitIdentifiers | parser.go:146-152 | the result is non-empty, no part contains `.`, and there is one part more than the dots left after dropping one leading dot |
| Identifiers.SplitIdentifiersRoundTrip | parser.go:146-152 | joining the parts with `.` rebuilds the identifier without its leading dot |
| Identifiers.SplitIdentifiersOfJoin | parser.go:146-152 | dot-free parts, the first non-empty, joined with dots split back into the same parts |
| Identifiers.IsValidExpansionMacro | parser.go:134-144 | an accepted string has at least 4 characters, `%` at position 0 or 1, `}` last or second to last, and the shape `.?%{words}.?` |
| Identifiers.BodyNonEmpty | parser.go:135 | a matching string has at least 4 characters, because the braces must hold at least one word character |
| Identifiers.RejectsEmptyNames | parser.go:135 | `%{}` and `%{a,}` are rejected: every name needs a word character |
| Identifiers.ToleratesOneCharacterEachSide | parser.go:134-159 | `x%{ab}y` is accepted, and the fixed cut then leaves `{ab}` as the only name |
| Identifiers.SplitExpansionMacro | parser.go:154-159 | a string that is not a valid macro comes back as the singleton list of itself; the result is never empty |
| Identifiers.MacroRoundTrip | parser.go:135-157 | `%{w1,…,wn}` of word names is valid and splits back into `w1,…,wn`, one name more than there are commas |
| Identifiers.ExactMacroSplits | parser.go:135-157 | a valid macro with nothing around it is `%{…}` of its own split, and every name is a word |
| Buffers.UnfillFilled | postprocessor.go:661-699 | reading back a buffer whose slots are all written gives its entries |
| Buffers.WriteSlot | postprocessor.go:668-671 | writing an entry at the first free slot extends the written prefix by it |
| Buffers.ReplaceSlot | postprocessor.go:645-653 | cutting the first free slot out and putting a list in its place extends the written prefix by the list, with one free slot fewer |
| Includes.ResolveIncludes | postprocessor.go:661-699 | the intended splice: the result has no include entry |
| Includes.EntrySplice | postprocessor.go:668-686 | an entry that is not an include splices to itself; an include splices to entries without includes |
| Includes.LoadFiles | postprocessor.go:680-686 | the entries loaded for the named files hold no include entry: every file's own includes are spliced first |
| Includes.ResolveIncludesAppend | postprocessor.go:665-695 | splicing distributes over concatenation: each entry is replaced where it stands, and the others keep their relative order |
| Includes.LoadFilesAppend | postprocessor.go:680-695 | files are spliced in the order they are named |
| Includes.IncludeFreeUnchanged | postprocessor.go:668-672 | entries without includes come through unchanged |
| Includes.IncludeSplicedInPlace | postprocessor.go:688-695 | one include between include-free entries is replaced in place by its files' entries |
| Includes.IncludeOrderExample | postprocessor.go:688-695 | `x`, `#include "B"`, `y`, with `B` holding `m`, splices to `x, m, y` |
| Includes.ParseEach | postprocessor.go:680-686 | as written: one spliced entry list per named file |
| Includes.SpliceConfigs | postprocessor.go:689-695 | as written: every file spliced in one include removes one free slot, so each file after the first consumes a slot that belongs to a later entry |
| Includes.SingleFile | postprocessor.go:680-695 | for a one-file include, the code as written and the intended splice fail alike or load the same file |
| Includes.OneFileLoopAgrees | postprocessor.go:665-695 | with one file per include, the loop as written fills the buffer with the intended splice |
| Includes.OneFileStep | postprocessor.go:665-695 | one step of the loop as written appends the entry's intended splice to the written prefix |
| Includes.OneFileIncludeStep | postprocessor.go:674-695 | the include case of that step |
| Includes.OneFileIncludeLoaded | postprocessor.go:674-695 | the include case when its one file loads |
| Includes.ParseOneFile | postprocessor.go:680-686 | a loadable one-file include gives, as written and as intended, the file's intended splice |
| Includes.IncludeParsed | postprocessor.go:689-695 | at an include whose files parse to one entry list, the loop as written puts that list at the write position and goes on after it, or fails with the parse error |
| Includes.FillSlot | postprocessor.go:690-694 | splicing one file puts its entries in the first free slot and moves the write index past them |
| Includes.SpliceLoopInclude | postprocessor.go:674-695 | the loop as written at an include: parse every file, then splice them, failing on the first error |
| Includes.OneFileAgrees | postprocessor.go:661-699 | with one file per include, the code as written computes the intended splice |
| Includes.SpliceAsWritten | postprocessor.go:661-699 | as written: an entry list it returns holds no include entry; it equals the intended splice with one file per include (`OneFileAgrees`) and fails on any include of two or more files (`MultiFileIncludeFails`) |
| Includes.SpliceLoop | postprocessor.go:665-697 | as written: the loop never writes an include entry into the buffer; one step is stated by `OneFileStep` and `SpliceLoopInclude`, and too few free slots make it fail (`SlotDeficitFails`) |
| Includes.SlotDeficitFails | postprocessor.go:665-695 | with fewer free slots than entries left, the loop as written fails |
| Includes.MultiFileLoopFails | postprocessor.go:689-695 | from a balanced buffer, an include of two or more files ahead makes the loop as written fail |
| Includes.MultiFileIncludeFails | postprocessor.go:689-695 | as written, any include of two or more files fails, whatever the files contain |
| Includes.TwoFileIncludeCounterexample | postprocessor.go:689-695 | `#include "b", "c"` fails with a slice range error as written, while the intended splice yields both files' fields |
| Includes.Concat | postprocessor.go:690-691 | both entry lists, the first one's first, or the first error |
| Includes.ConcatAssoc | postprocessor.go:690-691 | concatenating results is associative |
| Sections.Wrap | postprocessor.go:583-587 | one field `name: {inner}` per name, in name order, all sharing the same inner field list |
| Sections.ExpandChild | postprocessor.go:574-590 | a child link expands to exactly one field per child name, in order |
| Sections.ExpandRoot | postprocessor.go:592-614 | a root expands to exactly one top-level field per root name, in order |
| Sections.ExpandSection | postprocessor.go:616-622 | a section's top-level keys are the root names, roots in order and then names in order |
| Sections.ExpandRoots | postprocessor.go:617-619 | each root's fields, roots in order |
| Sections.KeysAppend | postprocessor.go:618 | the keys of a concatenation are the keys of the parts |
| Sections.WrapLeaves | postprocessor.go:583-587 | one more map level per child link, with one field per child name |
| Sections.ChildLeaves | postprocessor.go:574-590 | below a chain of child links, the body sits at every path through the links' names |
| Sections.RootLeaves | postprocessor.go:574-614 | the section body, unchanged, sits at every path that picks one name per header link, first link slowest, and nothing else is at that depth |
| Sections.MacroSectionExample | postprocessor.go:574-622 | `[test.%{dev,prod}] key` expands to `test: {dev: {key}, prod: {key}}` |
| Sections.ExplodeSections | postprocessor.go:624-659 | the intended explosion: the result has no section entry |
| Sections.Explode | postprocessor.go:630-643 | a non-section entry explodes to itself, a section explodes to field entries only, and no section remains |
| Sections.ExplodeAllFields | postprocessor.go:624-659 | once includes are spliced, exploding leaves only field entries |
| Sections.ExplodeAppend | postprocessor.go:628-656 | exploding distributes over concatenation |
| Sections.SectionFreeUnchanged | postprocessor.go:630-634 | entries that are not sections pass through unchanged and in order |
| Sections.SectionSplicedInPlace | postprocessor.go:636-655 | a section between other entries is replaced where it stands |
| Sections.ExplodeSectionsInPlace | postprocessor.go:624-659 | the placeholder-buffer loop as written computes exactly the intended explosion |
| Sections.ExplodeStep | postprocessor.go:628-656 | one more entry of the loop explodes on its own |
| Sections.ExplodeEntryInPlace | postprocessor.go:628-656 | one pass of the loop body writes the entry, or splices its section's expansion over the free slot, so the written prefix grows by that entry's explosion and one free slot is used up |
| ChildFields.Flatten | postprocessor.go:553-566 | the rewritten field keeps its key and has no child link; a field without one is unchanged |
| ChildFields.ChildFieldsToMap | postprocessor.go:543-572 | entry count kept, non-field entries unchanged, each field entry's field flattened |
| ChildFields.FlattenIsNest | postprocessor.go:553-566 | flattening gives the nested single-field maps of the field's key path and leaf value |
| ChildFields.DottedRoundTrip | postprocessor.go:553-566 | a dotted field's chain has the keys and leaf it was built from |
| ChildFields.UnnestNest | postprocessor.go:555-565 | the nested form has no child link at any level and reads back as its key path and leaf |
| ChildFields.FlattenDotted | postprocessor.go:553-566 | `k1.….kn: v` becomes nested single-field maps with keys `k1 … kn` in order, innermost value `v`, and no child link left |
| References.FindInMap | postprocessor.go:153-163 | the value of the first field with the name, or a missing-key error exactly when no field has it |
| References.Walk | postprocessor.go:186-192 | each segment is looked up in the value reached so far; a bare key on the way is a nil dereference, and a missing segment is an error |
| References.WalkAppend | postprocessor.go:186-192 | walking a longer path walks its two halves in turn |
| References.Scan | postprocessor.go:165-199 | a one-segment reference returns the earliest entry with that key; a longer one commits to the first entry with that key and a map value and walks the rest inside it; with no such entry it fails |
| References.ScanAppend | postprocessor.go:168-198 | entries after the one a reference stops at are never consulted |
| References.FindInConfig | postprocessor.go:165-199 | a name without dots is the value of the earliest entry with that key, bare or not, or a missing-key error when no entry has it; a dotted name is split at every `.` and scanned as stated by `Scan` |
| References.FindsCons | postprocessor.go:168-198 | the scan stops at the first entry or later in the list |
| References.ResolveMap | postprocessor.go:214-231 | rewriting a map keeps its keys in order |
| References.ResolveMapSteps | postprocessor.go:214-231 | rewriting a map yields a field list exactly when each field of that list is the map's field at that place rewritten, with the rewritten fields before it and the later fields as written |
| References.ResumeMap | postprocessor.go:214-231 | once the first fields of a map are rewritten, the rewrite goes on from them with the remaining fields |
| References.FailsAtField | postprocessor.go:220-229 | a field whose rewrite fails after the fields before it were rewritten makes the whole map fail with that error |
| References.ResolveMapFails | postprocessor.go:214-231 | rewriting a map fails with an error exactly when some field's rewrite fails with it after every field before it was rewritten |
| References.ResolveMapResolvesReference | postprocessor.go:224-228 | inside a rewritten map, an identifier-valued field is what its name denotes among the earlier entries and the current entry with the fields before it rewritten, and that lookup succeeded |
| References.ResolveField | postprocessor.go:217-229 | a bare key or a plain value is kept; a rewritten field keeps its key and child link |
| References.ResolveFieldReplaces | postprocessor.go:222-228 | an identifier-valued field becomes what its name denotes among the earlier entries and the current entry as it stands, and fails exactly when that lookup fails, with the lookup's error; a map stays a map with the same keys |
| References.ResolveTop | postprocessor.go:237-251 | a bare key or a plain value is kept, and a rewritten entry keeps its key and child link |
| References.ResolveTopReplaces | postprocessor.go:241-250 | an identifier-valued entry becomes what its name denotes among the entries up to and including itself, and fails exactly when that lookup fails, with the lookup's error; a map stays a map with the same keys |
| References.ResolveEntries | postprocessor.go:234-252 | the pass keeps the keys in order, leaves the entries already passed as they are, and rewrites each later entry against the rewritten entries before it |
| References.ResolveEntriesSteps | postprocessor.go:234-252 | the pass yields a list exactly when each entry of that list is the input entry at that place rewritten against the rewritten entries before it |
| References.ResolveEntriesFails | postprocessor.go:234-252 | the pass fails with an error exactly when some entry's rewrite fails with it after every earlier entry was rewritten |
| References.ReverseIdentifiers | postprocessor.go:233-253 | the whole pass keeps the top-level keys in order |
| References.ReverseIdentifiersResolvesReference | postprocessor.go:245-250 | after the pass, an identifier-valued entry is what its name denotes among the rewritten entries before it and itself, and that lookup succeeded |
| References.ReverseIdentifiersResolvesInMap | postprocessor.go:222-228 | after the pass, an identifier-valued field of a top-level map is what its name denotes among the rewritten earlier entries and its own entry with the fields before it rewritten, and that lookup succeeded |
| References.ResolveEntriesAppend | postprocessor.go:240-241 | entry i sees only entries 0..i: later entries never change how earlier ones resolve |
| References.PrefixResolvesAlike | postprocessor.go:240-241 | if the whole list resolves, every prefix resolves on its own to the same fields |
| References.ResolveNameExample | postprocessor.go:172-175 | `a: 1` then `b: a` resolves `b` to `1` |
| References.ResolvePathExample | postprocessor.go:182-194 | `c: {x: 1}` then `d: c.x` resolves `d` to `1` |
| References.ResolveMissingExample | postprocessor.go:198 | a reference to a key no entry up to it has fails |
| References.SelfReferenceExample | postprocessor.go:240-244 | `a: {x: 1, y: a.x}` resolves `y` to `1`: the entry being rewritten is part of what its references see |
| References.ResolveMapRefFree | postprocessor.go:214-231 | a map without references is rewritten to itself |
| References.ResolveFieldRefFree | postprocessor.go:217-229 | a field without references is rewritten to itself |
| References.ResolveTopRefFree | postprocessor.go:237-251 | an entry without references is rewritten to itself |
| References.ResolveEntriesRefFree | postprocessor.go:234-252 | entries without references come through unchanged |
| References.ReverseIdentifiersRefFree | postprocessor.go:233-253 | a configuration without references is unchanged by the pass |
| Arrays.ScanDigits | postprocessor.go:405 | the digit loop of `strconv.ParseUint`: a value it returns is at least the value it started from and comes from a run of digits only |
| Arrays.Signed | postprocessor.go:405 | `strconv.Atoi`'s result is within 64 bits, and succeeds exactly for a digit run within the signed range |
| Arrays.Atoi | postprocessor.go:405 | the result is always within the 64-bit range |
| Arrays.AtoiAcceptsDecimals | postprocessor.go:405 | only an optionally signed run of digits parses; anything else gives 0 unless a digit run overflowed first |
| Arrays.Decimal | postprocessor.go:405 | the numeral of a natural number is a non-empty run of digits |
| Arrays.ScanAppend | postprocessor.go:405 | the digit scan continues from where the first part left off |
| Arrays.ScanDecimal | postprocessor.go:405 | the digit scan reads a numeral back as its value |
| Arrays.AtoiDecimal | postprocessor.go:405 | `Atoi` reads every 64-bit value back from its numeral, signed or not, and clamps a larger numeral to the bound with an error |
| Arrays.AtoiRejects | postprocessor.go:405 | an empty string, a lone sign, a trailing letter and a leading space are syntax errors |
| Arrays.Values | postprocessor.go:405 | one parsed value per key |
| Arrays.ValuesAt | postprocessor.go:405 | each value is its key's parse |
| Arrays.StepsAreOrdering | postprocessor.go:406-410 | the loop's test at every position holds exactly when the values are a run of zeros followed by strictly increasing positive values |
| Arrays.StepsImplyOrdering | postprocessor.go:406-410 | passing every step gives that ordering |
| Arrays.OrderingImpliesSteps | postprocessor.go:406-410 | that ordering passes every step |
| Arrays.StepFails | postprocessor.go:408-409 | a failed step rules the ordering out |
| Arrays.StepsPass | postprocessor.go:404-416 | passing every step is the ordering |
| Arrays.KeysAreSequential | postprocessor.go:402-417 | true exactly when every key parses and the values are zeros followed by strictly increasing values |
| Arrays.SequentialExamples | postprocessor.go:402-417 | the empty list, the gap `0, 2` and the zero run `0, 0, 1` pass; `1, 1`, `2, 1` and a non-number fail |
| Arrays.GetLargestKey | postprocessor.go:419-429 | the largest parsed key and never below zero: no key parses higher, and a positive result is some key's parse |
| Arrays.FieldsToArrays | postprocessor.go:461-476 | the copy keeps the entry count and the keys in order |
| Arrays.CopyFields | postprocessor.go:435-438 | a map is rebuilt field by field, keeping the field count |
| Arrays.CopyKeys | postprocessor.go:448-458 | copying keeps the keys in order |
| Arrays.CopyFieldsIdentity | postprocessor.go:431-459 | the copy pass is the identity on parser-shaped fields |
| Arrays.CopyFieldIdentity | postprocessor.go:448-458 | the copy of a parser-shaped field is the field itself |
| Arrays.FirstWithKey | postprocessor.go:259-266 | the first field with the key, present exactly when some field has it |
| Arrays.Overlay | postprocessor.go:258-273 | sub's fields in order, each replaced by dom's first field with the same key when there is one |
| Arrays.AppendMissing | postprocessor.go:275-289 | the list kept as a prefix and extended by dom's fields whose keys are not yet in it: each appended field is dom's first field with its key, no key is appended twice, they come in dom's order, and every dom key is then present |
| Arrays.SkipPresent | postprocessor.go:276-287 | a dom field whose key is already in the list is not appended |
| Arrays.TakeMissing | postprocessor.go:276-287 | a dom field whose key is not yet in the list is appended, ahead of the later dom fields |
| Arrays.AppendedFromTail | postprocessor.go:275-289 | fields taken from dom after its first field, with another key, are first occurrences in dom in the same order |
| Arrays.FirstIndexTail | postprocessor.go:260-265 | past a first field with another key, a key's first position moves by one |
| Arrays.HasKeyPrefix | postprocessor.go:278-283 | a key of a prefix is a key of the whole |
| Arrays.MergeValues | postprocessor.go:255-295 | for two maps: sub's keys first in sub's order taking dom's field for a shared key, then each remaining dom key once, as dom's first field with that key, in dom's order, so that every dom key is present; otherwise dom itself |
| Arrays.MergeValuesLookup | postprocessor.go:255-295 | looked up by first match, the merge is dom overriding sub: a key of dom finds dom's field, any other key finds sub's |
| Arrays.LookupSubKey | postprocessor.go:259-272 | a key of sub is found at its first position in sub, holding dom's field when dom has the key |
| Arrays.LookupDomOnlyKey | postprocessor.go:275-287 | a key only dom has is found as dom's first field with that key |
| Arrays.LookupAbsentKey | postprocessor.go:257-289 | a key neither map has is not in the merge |
| Arrays.FirstIndex | postprocessor.go:259-266 | the first position of a present key |
| Tree.ToFinalValue | postprocessor.go:82-109 | an identifier stays an identifier, a map literal becomes a map, a scalar is kept, and anything else (a list, a multi-line string, an empty map) becomes an empty map |
| Tree.LastWithKey | postprocessor.go:88-94 | present exactly when some field has the key; then it is a field at a position after which no field has the key, so the last one |
| Tree.FoldFields | postprocessor.go:88-94 | the fold adds only keys some field names, and a key no field names keeps its entry; each key's value is stated by `FoldFieldsLookup` |
| Tree.FoldFieldsLookup | postprocessor.go:88-94 | after the fold, a key is decided by the last field with that key: absent when that field has no value, otherwise that field's converted value (no deep merge) |
| Tree.FinalMapLookup | postprocessor.go:85-96 | a map literal converts to exactly the keys whose last field has a value, each with that field's converted value |
| Tree.FinalMapOfOne | postprocessor.go:85-96 | a one-field map literal converts to a one-entry map |
| Tree.FinalMapOfTwo | postprocessor.go:85-96 | a two-field map literal converts field by field |
| Tree.FoldFieldsExample | postprocessor.go:88-94 | a later duplicate replaces the earlier value without merging, and a later bare key deletes it |
| Tree.OkValues | postprocessor.go:112-150 | the values of per-key merges that all succeeded, on the same keys |
| Tree.BroadcastEntry | postprocessor.go:116-122 | a non-map entry is skipped; a map entry receives the broadcast, which must then be a map |
| Tree.Broadcast | postprocessor.go:114-126 | the keys are unchanged and non-map entries are unchanged; a failure is always the non-map `@` error and needs some map entry, which the broadcast either is not a map for, or reaches with a nested `@` that is not a map |
| Tree.MergeEntry | postprocessor.go:133-149 | a source value over anything but a map-over-map pair is taken as it is |
| Tree.MergeMaps | postprocessor.go:111-151 | the merged keys are dst's plus src's except `@`, and the only failure is a non-map `@` |
| Tree.MergeMapsCases | postprocessor.go:128-149 | a key src does not name keeps dst's value; a new key takes src's; map over map recurses; any other collision takes src's value |
| Tree.MergeMapsBroadcastsFirst | postprocessor.go:114-126 | `@` is never stored: its map is merged into dst's map entries, then the other keys of src are merged |
| Tree.MergeSucceeds | postprocessor.go:111-151 | without `@` anywhere in src, a merge never fails |
| Tree.MergeIdempotent | postprocessor.go:111-151 | merging an `@`-free map into itself changes nothing |
| Tree.MergeIntoEmpty | postprocessor.go:111-151 | merging into an empty map copies src without its `@` entry |
| Tree.BroadcastWithoutRoots | postprocessor.go:115-123 | with no map entry, a broadcast changes nothing and never fails |
| Tree.BroadcastReachesEveryRoot | postprocessor.go:115-119 | every map entry receives the broadcast map |
| Tree.BroadcastSucceeds | postprocessor.go:115-123 | an `@`-free broadcast map never fails |
| Tree.BroadcastNeedsMap | postprocessor.go:118 | a non-map broadcast fails once some entry is a map |
| Tree.MapOverStringExample | postprocessor.go:133-143 | a map over a string lets the map win |
| Tree.BroadcastIntoRootExample | postprocessor.go:114-126 | `{key: {key: "value"}}` broadcast into `{test: {key: "value"}}` reaches the one root |
| Tree.FinalValue | postprocessor.go:488-492 | a top-level field converts to nil exactly when it has no value |
| Tree.Step | postprocessor.go:484-538 | one entry: `@` keeps the keys; any other key adds itself; other keys keep their values |
| Tree.Run | postprocessor.go:484-538 | the loop never loses a key and never stores `@` |
| Tree.ToMap | postprocessor.go:480-541 | the output never has an `@` key; the value each key ends with is stated by `ToMapLastBare` (the key is assigned bare somewhere: take the last such place), `ToMapFirstNonMap` (its first assignment is not a map) and `ToMapFirstMap` (its first assignment is a map and it is never assigned bare), which between them cover every key |
| Tree.RunAppend | postprocessor.go:484-538 | the loop over a concatenation runs the second part from where the first stopped |
| Tree.RunKeys | postprocessor.go:484-538 | the output keys are exactly the non-`@` keys of the top-level fields |
| Tree.MergeAll | postprocessor.go:521-523 | deep-merging maps one after another into a start map keeps every key of the start map |
| Tree.MergeAllSucceeds | postprocessor.go:111-151 | deep-merging `@`-free maps one after another never fails |
| Tree.RunNonMap | postprocessor.go:516-536 | once a top-level key holds a non-map, later assignments leave it as it is except a bare one, which makes it nil, and a map one, which fails |
| Tree.RunMap | postprocessor.go:495-536 | while a top-level key holds a map and is never assigned bare, every later map assigned to it and every later map broadcast is deep-merged into it in order, other assignments to it are dropped, and a non-map broadcast fails |
| Tree.ToMapLastBare | postprocessor.go:516-536 | whatever came before a key's last bare assignment, a later map assignment to it fails, and otherwise the key converts to nil |
| Tree.ToMapFirstNonMap | postprocessor.go:516-532 | a key whose first assignment is not a map keeps that converted value unless a later bare assignment makes it nil; a later map assignment fails |
| Tree.ToMapFirstMap | postprocessor.go:495-532 | a key whose first assignment is a map and that is never assigned bare afterwards ends with that map deep-merged with every later map assigned to it and every later map broadcast, in order; a later non-map broadcast fails |
| Tree.BroadcastNotRetroactive | postprocessor.go:495-513 | a top-level `@` does not reach a key first assigned after it |
| Tree.ToMapSingle | postprocessor.go:517-519 | a single assignment converts to a one-entry map |
| Tree.ToMapTwo | postprocessor.go:516-536 | two fields with different keys convert to a two-key map |
| Tree.DuplicateKeyExample | postprocessor.go:516-537 | a later integer for an existing key keeps the first; a later bare key replaces it with nil |
| Tree.MapOverNullFails | postprocessor.go:523 | a map assigned over a bare key's nil fails, as the type assertion does |
| Tree.TopLevelBroadcastExample | postprocessor.go:495-513 | `test: {key: "value"}` then `@: {key: {key: "value"}}` gives `{test: {key: {key: "value"}}}` |
| Tree.Descend | postprocessor.go:17-29 | each key must name an entry of a map: a missing key and a non-map on the way are errors, and every error names one of the keys followed |
| Tree.DescendAppend | postprocessor.go:17-29 | following a concatenated path follows its first part, then its second |
| Tree.LookupPath | postprocessor.go:12-32 | a failure names one of the segments of the dotted name, as missing or as not a map, and nothing is found in an empty root; a dotless name is stated by `LookupSingleKey`, a longer one by `Descend` and `DescendAppend` |
| Tree.LookupSingleKey | postprocessor.go:12-32 | a name without dots looks up one top-level key, or fails when it is absent |
| Pipeline.TopFields | postprocessor.go:383-385 | after the three structural passes, no top-level field has a child link |
| Pipeline.Transform | postprocessor.go:382-400 | the converted configuration never has an `@` key |
| Pipeline.TransformAsWritten | postprocessor.go:382-400 | the pipeline with the include splice as written: never an `@` key |
| Pipeline.TransformAsWrittenAgrees | postprocessor.go:661-699 | with one file per include, the pipeline as written and as intended give the same result, error or map |
| Pipeline.TransformAsWrittenFails | postprocessor.go:689-695 | an include of two or more files makes the pipeline as written fail |
| Pipeline.TwoFileTransformExample | postprocessor.go:689-695 | `#include "b", "c"` converts to both files' keys as intended and panics as written |
| Pipeline.SplicedAlike | postprocessor.go:382-385 | the pipeline sees a configuration only through its spliced entries |
| Pipeline.TwoStringsConvert | postprocessor.go:382-400 | `x:"1" y:"2"` converts to `{"x": "1", "y": "2"}` |
| Pipeline.TransformKeys | postprocessor.go:382-400 | the output keys are exactly the non-`@` keys of the top-level fields |
| Pipeline.FieldsOfAsEntries | postprocessor.go:385 | the fields of field entries are the fields |
| Pipeline.FlattenFree | postprocessor.go:554 | flattening leaves fields without child links as they are |
| Pipeline.PlainFieldsConvertDirectly | postprocessor.go:382-400 | for plain fields, every pass before the conversion is the identity |
| Pipeline.SectionsConvert | postprocessor.go:382-400 | a configuration of reference-free sections converts as the list of their expansions |
| Pipeline.SectionEntries | postprocessor.go:630 | sections as entries, one per section, with no include |
| Pipeline.AsEntriesAppend | postprocessor.go:641-643 | field entries of a concatenation are the concatenation of field entries |
| Pipeline.ExplodeSectionEntries | postprocessor.go:624-659 | exploding section entries gives the field entries of their expansions |
| Pipeline.ExpandAllFree | postprocessor.go:574-622 | expanded fields have no child link |
| Pipeline.ExpandRootsFree | postprocessor.go:602 | a root's expanded fields have no child link |
| Pipeline.PlainCons | postprocessor.go:431-459 | a plain field followed by plain fields is plain |
| Pipeline.PlainString | postprocessor.go:431-459 | a string field is plain |
| Pipeline.PlainMap | postprocessor.go:431-459 | a field holding a non-empty plain map is plain |
| Pipeline.SingleFieldExample | json_test.go:13-20 | `key:"value"` converts to `{"key": "value"}` |
| Pipeline.MacroSectionConverts | json_test.go:37-38 | `[test.%{dev,prod}] key:"value"` converts to `{"test": {"dev": {"key": "value"}, "prod": {"key": "value"}}}` |
| Pipeline.BroadcastSectionConverts | json_test.go:42-43 | `[test] key:"value" [@.key] key:"value"` converts to `{"test": {"key": {"key": "value"}}}` |
| Pipeline.BroadcastSectionsExpand | postprocessor.go:592-622 | the two sections of that case expand to `test: {key: "value"}` and `@: {key: {key: "value"}}` |

## Left out

- The parser and lexer (`BuildParser`, `ParseFile`, the lexer grammar of parser.go): they are grammar rules for an external parsing library. The model starts from the parse tree, and file loading is the abstract `Includes.Loader`.
- main.go: command-line flags, the working directory, JSON marshalling and file output are I/O.
- `UnprocessedString.transform`: a chain of regular expressions with Unicode space classes. Multi-line strings stay uninterpreted (`VMultiline`).
- `mergeArrays` and `mergeArraysWithConfig`: they depend on a field's array index, which the parser never sets, and they are unfinished (`panic("lol")` whenever no field of the map has the array index's key, postprocessor.go:324-325). The pipeline goes from the copy pass straight to the conversion.
- The `repr.Println` debug dumps.
- The free function `reverseIdentifiers` with its `currPrefix` global, and `reverseIdentifiersInList`: neither is ever called, so lists are never resolved.
- `lookupIdentifierInRoot` reads a global set by `toMap`; `Tree.LookupPath` takes the root as a parameter instead.
- `checkConfigError` formats a panic message; errors here carry only the offending key or file.
- Float literals are opaque payloads; no pass computes with them.
- Source positions are not kept.
- Includes.ResolveIncludes: nesting is bounded by a `fuel` parameter, and running out of fuel fails with `IncludeTooDeep`; Go recurses without bound and never returns on an include cycle.
- Pipeline.Transform: it runs the intended include splice (`Includes.ResolveIncludes`), so an include of two or more files succeeds where Go panics. The splice as written is in `Pipeline.TransformAsWritten`, which agrees with `Transform` when every include names one file (`TransformAsWrittenAgrees`) and fails otherwise (`TransformAsWrittenFails`). The rest of the model is built on the intended splice; see "## Findings".
- Pipeline.TopFields: it uses the intended include splice, for the same reason as `Pipeline.Transform`.
- Tree.MergeMaps: Go visits the source map in random order. The model fixes one order: the `@` entry first, then every other key. With another order, `@` would also reach maps that src adds in the same merge.
- Tree.ToMap: Go stores a merged-in sub-map by reference (`dst[key] = val`), so a broadcast can put the same sub-map under several roots, and a later merge into one of them then changes them all. Every tree here is an immutable value, so a later merge changes only the entry it targets.
- References.ResolveMap: Go rewrites fields in place through shared pointers. A reference to a map later in the same entry therefore sees that map's fields after they are rewritten, and a reference to the enclosing entry creates a cycle. The model looks references up in a snapshot of the entry, where the fields after the current one are not yet rewritten.
- References.ResolveEntries: Go gives all the names and roots of one section the same field list (postprocessor.go:584, 605, 607), and the pass rewrites fields in place through those shared pointers (postprocessor.go:228), so rewriting a later copy also changes the earlier copies. For `y: 5` followed by `[test.%{dev,prod}] k: test.dev.z  z: y`, Go ends with `k: 5, z: 5` under both `dev` and `prod`. The model rewrites each copy as a value of its own: `dev` keeps `k` as the identifier `y` (what `test.dev.z` held when `dev` was rewritten) and gets `z: 5`, and only `prod` gets `k: 5`.
- References.ResolveEntriesAppend: holds of the value semantics only. In Go a later entry that shares a section's field list with an earlier one changes the earlier one when it is rewritten, so later entries can change earlier ones.
- References.PrefixResolvesAlike: holds of the value semantics only, for the same shared-field-list reason; in Go a prefix resolved on its own can differ from the same entries in the whole list.
- Identifiers.SplitExpansionMacro: strings are sequences of characters. Go's regular expression matches runes, but the fixed two-and-one cut in `splitExpansionMacro` counts bytes, and that difference for multi-byte characters is not modelled.

## Findings

| source | as written | input that shows it | evidently intended | confidence | as-written member | corrected member |
|---|---|---|---|---|---|---|
| postprocessor.go:689-695 | every file of one include statement is spliced over `ret.Entries[newEntriesIndex+1:]`, so each file after the first cuts out the free slot of a later entry | `#include "b", "c"` where each file holds one field: the second splice slices `ret.Entries[2:]` of a one-slot list and panics | the include entry is replaced by the entries of all its files, in order | high; not executed | Includes.MultiFileIncludeFails, Includes.TwoFileIncludeCounterexample, Pipeline.TwoFileTransformExample | Includes.ResolveIncludes, Includes.IncludeSplicedInPlace |
