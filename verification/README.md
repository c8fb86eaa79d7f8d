# recruit-arknights: tag-combination engines in Dafny

This project models the logic behind the Arknights recruitment helper
recruit-arknights. The model covers two engines and the small helpers
around them:

- **The live filter** (`useFilterOperators`): for every non-empty
  sub-combination of the user's selected tags, it lists the roster
  operators that satisfy every item. It applies the two rarity aliases
  `エリート` and `上級エリート`, and hides rarity-6 operators unless
  `上級エリート` is selected.
- **The recommendation detector** (`detectRecommendedTags`): it lists
  every combination of one, two or three tags or professions whose
  matches guarantee rarity 4 or more.
- **The helpers around them:**
  - the tier bucketing and icon-id extraction of the recommend page;
  - the screenshot-tag normaliser and the URL-backed selection state;
  - the `.png` to `.webp` rewriting of the asset optimiser;
  - component naming of the image generator;
  - the JSON minifier's command line;
  - the command history of the PRTS terminal on the not-found page.

Every operation is a pure function over immutable datatypes. A JavaScript
object used as a map is a sequence of key/value pairs in insertion order
(`Entries`). Where the model builds such an object itself, insertion
order is JavaScript's key order, because none of those keys is
integer-like. Parsed JSON objects are another matter (see "## Left out"). JavaScript's `sort` is stable, so both engines
sort with a stable insertion sort on a lexicographic rank (`StableSort`).

Modules, by file:

| file | module | models |
|---|---|---|
| wrappers.dfy | Wrappers | `Option` |
| strings.dfy | Strings | `trim`, `indexOf`, `includes`, `split`, `join`, `replace`, ASCII case mapping |
| seqs.dfy | Seqs | filtering, first-occurrence dedup, subsequences |
| stablesort.dfy | StableSort | stable insertion sort by rank |
| entries.dfy | Entries | objects as ordered key/value lists; the collect-by-joined-key loop both engines share |
| roster.dfy | Roster | `Operator`, rarity, the tag vocabulary (src/types/recruit.ts, src/lib/utils.ts) |
| livefilter.dfy | LiveFilter | src/hooks/useFilterOperators.ts |
| tagtext.dfy | TagText | the legacy bracketed-string `tags` form in src/lib/recommendTags.ts |
| detector.dfy | Detector | src/lib/recommendTags.ts |
| recommendview.dfy | RecommendView | `groupedByRarity` and `getImageId` in src/components/recommend-tags.tsx |
| selection.dfy | Selection | src/hooks/useOcrTagApplicator.ts, src/hooks/useCheckboxState.ts |
| webp.dfy | Webp | `toWebpPath`, `convertOperatorRecord`, `transformOperatorsToWebp` in tools/optimize-assets.js |
| componentname.dfy | ComponentName | `capitalizeFormat`, `generateComponentName` in tools/generate-image-component.js |
| cliargs.dfy | CliArgs | `parseArguments` in tools/optimize-json.js |
| terminal.dfy | Terminal | `handleSubmit` in src/components/prts-terminal.tsx |

## Model

| member | source | states |
|---|---|---|
| LiveFilter.FilterOperators | src/hooks/useFilterOperators.ts:10-67 | With no roster or an empty selection, the result is empty. Otherwise it is a permutation of the generated groups, sorted by item count with the largest first. Groups with equal counts keep generation order. |
| LiveFilter.FilterOperatorsSound | src/hooks/useFilterOperators.ts:53-62 | Every group is a non-empty combination of the selection, stored under `items.join(" + ")`. Its value is exactly the non-empty roster-order list of operators that match it. |
| LiveFilter.FilterOperatorsComplete | src/hooks/useFilterOperators.ts:56-62 | Every non-empty combination that some operator matches has a group. |
| LiveFilter.FilterOperatorsDistinctKeys | src/hooks/useFilterOperators.ts:54-66 | No key occurs twice in the result. |
| LiveFilter.Combinations | src/hooks/useFilterOperators.ts:47-49 | The power-set fold yields 2^n combinations, the empty one first. |
| LiveFilter.CombinationsSound | src/hooks/useFilterOperators.ts:47-51 | Every combination picks some selected items, in reverse selection order. |
| LiveFilter.CombinationsComplete | src/hooks/useFilterOperators.ts:47-51 | Every such pick is generated. |
| LiveFilter.CombinationsOfTwo | src/hooks/useFilterOperators.ts:47-51 | Selecting `[a, b]` gives `[a]`, `[b]`, `[b, a]`, in that order. |
| LiveFilter.GroupCountBound | src/hooks/useFilterOperators.ts:47-62 | There are fewer than 2^n groups. With the selection capped at six items (src/components/recruit.tsx:47), there are at most 63. |
| LiveFilter.MatchingOperators | src/hooks/useFilterOperators.ts:27-39 | The roster-order subsequence of exactly the operators that satisfy every item. |
| LiveFilter.ItemMatches | src/hooks/useFilterOperators.ts:32-37 | Definition: `エリート` admits rarity 5 and `上級エリート` admits rarity 6. A rarity-6 operator is rejected when the combination lacks `上級エリート`. Otherwise `tags.includes(item)` must hold (list membership, or substring for a string), or the item must be the profession. |
| LiveFilter.Grouped | src/hooks/useFilterOperators.ts:53-62 | Definition: one entry per non-empty combination that some operator matches, under its `" + "` key, in generation order. A repeated key overwrites in place. |
| LiveFilter.SeniorEliteGate | src/hooks/useFilterOperators.ts:34-36 | A rarity-6 operator matches no combination that lacks `上級エリート`. It does match `上級エリート` alone. |
| LiveFilter.EliteAlias | src/hooks/useFilterOperators.ts:33-37 | `エリート` alone admits every rarity-5 operator and no rarity-6 one. Below rarity 5 it falls back to tag or profession membership. |
| LiveFilter.MatchesFewerItems | src/hooks/useFilterOperators.ts:31-39 | Below rarity 6, an operator that matches a combination also matches any combination built from some of its items. |
| LiveFilter.LargerCombinationsFirst | src/hooks/useFilterOperators.ts:64-66 | When no selected item contains '+', a group placed earlier never has fewer items than one placed later. |
| TagText.ParseTagString | src/lib/recommendTags.ts:26-31 | Parsing the string form yields at least one tag. Every tag is trimmed and free of double quotes. |
| TagText.ParseFormat | src/lib/recommendTags.ts:23-31 | For a non-empty list of tags with no quote, no bracket, no occurrence of the separator `", "` and no surrounding white space, the string form `"['a', 'b']"` parses back to the list. A lone comma, as in `"a,b"`, is allowed. |
| TagText.ParseBrackets | src/lib/recommendTags.ts:26-31 | The string `"[]"` parses to `[""]`, not to the empty list. |
| TagText.ParseEmptyList | src/lib/recommendTags.ts:26-31 | The printed form of the empty list parses to `[""]`. |
| Detector.TagOccurrences | src/lib/recommendTags.ts:14-47 | The collected tags are exactly the tags of roster operators that are not one of the three aliases. |
| Detector.Universe | src/lib/recommendTags.ts:17-54 | Definition: the distinct non-alias tags in first-occurrence order, followed by the distinct professions. These are two separate sets, concatenated. |
| Detector.UniverseContents | src/lib/recommendTags.ts:14-54 | An item is in the universe iff it is a non-alias tag or a profession of some operator. The tag part and the profession part each have no repeats. |
| Detector.CombosIff | src/lib/recommendTags.ts:57-78 | The examined combinations are exactly the 1-, 2- and 3-element subsequences of the universe. |
| Detector.Combos | src/lib/recommendTags.ts:56-78 | Definition: the singles, then the pairs, then the triples, in the loops' index order. |
| Detector.CombosCount | src/lib/recommendTags.ts:59-78 | A universe of n items gives n + n(n-1)/2 + n(n-1)(n-2)/6 combinations. |
| Detector.RecommendationIff | src/lib/recommendTags.ts:83-96 | A combination is kept iff it has an eligible match (matching, rarity other than 6) and every eligible match has rarity at least 4. The kept list is non-empty and sorted by rarity. It holds only eligible rarity-4 or rarity-5 operators, and all of them. |
| Detector.Recommendation | src/lib/recommendTags.ts:84-96 | Definition: the rarity-6-free matches, kept only when at least one exists and all have rarity at least 4, then stably sorted by rarity. |
| Detector.Matches | src/lib/recommendTags.ts:130-132 | Definition: an operator matches a combination when it matches every item. |
| Detector.ItemMatches | src/lib/recommendTags.ts:133-153 | Definition: an item matches when it is the operator's profession or one of its parsed tags. |
| Detector.RecommendedList | src/lib/recommendTags.ts:84-95 | The kept list is the eligible operators sorted by ascending rarity, each exactly as often as in the roster. The sort is stable: operators of equal rarity keep their roster order. |
| Detector.UnreadableTagsMatchByProfession | src/lib/recommendTags.ts:130-155 | An operator whose `tags` is neither a string nor a list matches only through its profession. |
| Detector.StringFormMatchesLikeList | src/lib/recommendTags.ts:133-153 | The string form of a plain tag list matches exactly the combinations the list form matches. |
| Detector.DetectRecommendedTags | src/lib/recommendTags.ts:8-122 | A missing or empty roster gives an empty result. Otherwise the result is a permutation of the kept combinations. It is ordered by higher minimum rarity, then fewer items, then fewer operators, with ties kept in examination order. |
| Detector.DetectSound | src/lib/recommendTags.ts:83-96 | Every entry is a 1-to-3 subsequence of the universe under its joined key, holding its kept list. |
| Detector.DetectGuarantee | src/lib/recommendTags.ts:86-95 | Every reported list is non-empty with minimum rarity 4 or 5. It contains every eligible matching operator. |
| Detector.DetectComplete | src/lib/recommendTags.ts:57-96 | Every 1-to-3 universe combination that meets the rarity condition is reported. |
| Detector.DetectDistinctKeys | src/lib/recommendTags.ts:81-121 | No key occurs twice. |
| Detector.ReportedKeysAvoidAliases | src/lib/recommendTags.ts:14-54 | When no profession is an alias, no reported key is built from `上級エリート`, `エリート` or `ロボット`. |
| Detector.MinRarity | src/lib/recommendTags.ts:102-103 | The minimum is attained by some operator and bounds them all. An empty list gives 7, standing in for `Infinity`. |
| RecommendView.GroupByRaritySections | src/components/recommend-tags.tsx:91-120 | The `star5` and `star4plus` lists are the per-tier selections of the entries, in input order. |
| RecommendView.GroupByRarity | src/components/recommend-tags.tsx:91-120 | Each entry yields at most one card. Which cards the sections hold is stated by `GroupByRaritySections`. |
| RecommendView.Classify | src/components/recommend-tags.tsx:103-110 | Definition: a key containing `[星5確定]` belongs to `star5`. Otherwise, one containing `[星4以上確定]` belongs to `star4plus`. Any other key belongs nowhere. |
| RecommendView.CardOf | src/components/recommend-tags.tsx:105-115 | Definition: the card holds the key with the first occurrence of its section's spaced label removed, and the operators unchanged. |
| RecommendView.UnlabelledKeyDropped | src/components/recommend-tags.tsx:103-116 | A key without `[` carries no label and is dropped. |
| RecommendView.Star5LabelRoundTrip | src/components/recommend-tags.tsx:103-105 | For any `t` that does not contain `[星5確定]`, `t + " [星5確定]"` goes to `star5`, and its card shows exactly `t` with the operators unchanged. |
| RecommendView.Star4LabelRoundTrip | src/components/recommend-tags.tsx:103-108 | For any `t` that contains neither label, `t + " [星4以上確定]"` goes to `star4plus`, and its card shows exactly `t`. |
| RecommendView.LoneRarity5Operator | src/components/recommend-tags.tsx:91-120 | A roster with one rarity-5 operator yields a non-empty detector report, yet the page shows nothing (Findings). |
| RecommendView.RecommendPageDropsEverything | src/components/recommend-tags.tsx:103-116 | When no tag or profession contains `[`, both sections built from the detector's report are empty (Findings). |
| RecommendView.LabelledRecommendPageComplete | src/components/recommend-tags.tsx:91-120 | With tier labels added, every reported combination reaches its tier's section under its own key, in report order (Findings). |
| RecommendView.LabelledEntry | src/components/recommend-tags.tsx:103-108 | A labelled entry is classified by its minimum rarity. Its card shows the unlabelled key. |
| RecommendView.GetImageIdIff | src/components/recommend-tags.tsx:27-31 | `getImageId` gives `id` iff `id` is a non-empty digit run and the path is some prefix + "/" + id + ".png". |
| RecommendView.GetImageId | src/components/recommend-tags.tsx:27-31 | Definition: the run of digits between a final `.png` and the `/` before it, when that run is non-empty and reaches the `/`. `GetImageIdIff` characterises it. |
| RecommendView.LookupName | src/components/recommend-tags.tsx:37 | Definition: the export name `Image${imageId}` an icon is looked up under. Characterised by RecommendView.LookupMatchesGeneratedName. |
| RecommendView.LookupMatchesGeneratedName | src/components/recommend-tags.tsx:34-37 | The name looked up for an icon path whose id is `id` equals the component name that tools/generate-image-component.js:34-36 gives the image file `id`. |
| Selection.NormalizeOcrTags | src/hooks/useOcrTagApplicator.ts:21-27 | The normalised list has no duplicates. Every element is trimmed, non-empty and valid. Every valid trimmed input is in it, and every element comes from an input. |
| Selection.NormalizeFirstOccurrenceOrder | src/hooks/useOcrTagApplicator.ts:21-27 | Tags are listed in the order of their first occurrence among the trimmed inputs. |
| Selection.NormalizeIdempotent | src/hooks/useOcrTagApplicator.ts:21-28 | Normalising a normalised list changes nothing. |
| Selection.OcrTagsThroughSetter | src/hooks/useOcrTagApplicator.ts:20-29 | Through the selection setter, the previous selection is discarded. The normalised list is stored as it is, or as null when empty. |
| Selection.Sanitize | src/hooks/useCheckboxState.ts:35-37 | The sanitised list has no duplicates. It keeps exactly the valid items of the proposal, as a subsequence, each at its first occurrence: items are listed in the order of their first occurrence in the proposal. |
| Selection.SetSelectedItems | src/hooks/useCheckboxState.ts:26-47 | The stored value is null iff the proposal has no valid item. Otherwise it is a non-empty, duplicate-free subsequence of the proposal, holding exactly its valid items in the order of their first occurrence. |
| Selection.UpdaterSeesCurrent | src/hooks/useCheckboxState.ts:28-33 | An updater is applied to the stored list, or to `[]` when the state is null. The result is then stored as a plain value would be. |
| Selection.IdentityUpdateKeeps | src/hooks/useCheckboxState.ts:28-43 | An updater that returns its argument leaves a sanitised stored list unchanged. |
| Selection.ClearSelectedItems | src/hooks/useCheckboxState.ts:49-51 | Clearing stores null, which reads back as the empty selection with count 0. |
| Selection.CheckedItems | src/hooks/useCheckboxState.ts:19-24 | `checkedItems` maps exactly the selected items to true, each key once. |
| Selection.CheckedItemsCount | src/hooks/useCheckboxState.ts:19-24 | For a stored selection, the number of checked entries is `selectedCount`. |
| Webp.ToWebpPath | tools/optimize-assets.js:17-29 | The value changes iff it is a string whose part before the first `?` ends in `.png`, in any case. |
| Webp.ToWebpRenames | tools/optimize-assets.js:22-28 | `.png` becomes `.webp`. A non-empty query is re-attached and an empty one is dropped. |
| Webp.ToWebpDropsSecondQuery | tools/optimize-assets.js:22-28 | Anything after a second `?` is lost. |
| Webp.ToWebpIdempotent | tools/optimize-assets.js:17-29 | Rewriting twice equals rewriting once. |
| Webp.ConvertOperatorRecord | tools/optimize-assets.js:31-50 | The counter grows by one exactly when `imgPath` is a `.png` string. Otherwise the record is returned as it is. A changed record has the same keys and the same other fields, and `imgPath` rewritten. |
| Webp.ConvertIdempotent | tools/optimize-assets.js:31-50 | Converting a converted record changes nothing and counts nothing. |
| Webp.ConvertAll | tools/optimize-assets.js:56 | The array is converted element-wise, and the count grows by the number of `.png` records. |
| Webp.TransformOperatorsToWebp | tools/optimize-assets.js:52-72 | An array is converted element-wise. An object keeps its keys and every field but `operators`, whose array is converted. An object whose `operators` is missing or not an array, and any other value, is returned as it is with count 0. |
| Webp.TransformIdempotent | tools/optimize-assets.js:52-72 | Transforming transformed data changes nothing and counts nothing. |
| ComponentName.Capitalize | tools/generate-image-component.js:27-29 | The length is kept. Only the first character is upper-cased and the rest are unchanged. |
| ComponentName.CapitalizeIdempotent | tools/generate-image-component.js:27-29 | Capitalising twice equals capitalising once. |
| ComponentName.SplitOnSeparators | tools/generate-image-component.js:40 | There is at least one piece, and no piece contains `-`, `_` or white space. Where the pieces break is stated by the two lemmas below. |
| ComponentName.SplitOnSeparatorsRejoin | tools/generate-image-component.js:40 | There is one piece more than the name has separators, and putting each separator back between the two pieces it split gives the name again. |
| ComponentName.SplitOnSeparatorsUnique | tools/generate-image-component.js:40 | Any separator-free pieces that rejoin to a name with separator characters between them are that name's split. |
| ComponentName.SplitOnSeparatorsConcat | tools/generate-image-component.js:40-42 | The pieces, laid end to end, are the name with its separators removed. |
| ComponentName.ComponentNameHasNoSeparator | tools/generate-image-component.js:32-43 | The generated name never contains `-`, `_` or white space. |
| ComponentName.GenerateComponentName | tools/generate-image-component.js:32-43 | Outside the all-digit case, the name equals `CapitalizeWords(name, true)`. |
| ComponentName.NumericComponentName | tools/generate-image-component.js:34-36 | An all-digit name gets the prefix `Image`. Such a name has no letter to upper-case. |
| ComponentName.CapitalizeWords | tools/generate-image-component.js:39-42 | Definition: the name read one character at a time. Separators are dropped. A character is upper-cased when it starts the name or follows a separator, and kept otherwise. |
| ComponentName.CapitalizeWordsSplit | tools/generate-image-component.js:39-42 | Capitalising each piece of the split and joining them is the character-by-character reading `CapitalizeWords`. |
| ComponentName.ComponentNameCapitals | tools/generate-image-component.js:39-42 | Outside the all-digit case, the non-separator `name[i]` becomes character k of the name, where k counts the non-separators before it. It is upper-cased exactly when it is the first character or follows a separator, and kept as it is otherwise. |
| ComponentName.ComponentNameLetters | tools/generate-image-component.js:39-42 | A non-numeric name becomes the name without separators, up to letter case. |
| ComponentName.ComponentNameLength | tools/generate-image-component.js:39-42 | A non-numeric name becomes exactly as long as the name without separators. |
| ComponentName.EmptyPiecesVanish | tools/generate-image-component.js:39-42 | `"a--b"` becomes `"AB"`. |
| CliArgs.ParseArguments | tools/optimize-json.js:101-131 | `pretty` is set iff `--pretty` is given. The indent is that of the arguments read left to right. The paths are the first and second positional arguments, falling back to the defaults when missing or empty. `--pretty` is never a path. |
| CliArgs.IndentOf | tools/optimize-json.js:115-121 | Definition: the indent the arguments select, read left to right. Each valid `--indent=` replaces the value before it, starting from 2. |
| CliArgs.ParseNoArguments | tools/optimize-json.js:30-31 | With no argument: the default input and output paths, pretty false, indent 2. |
| CliArgs.IndentIsLastValid | tools/optimize-json.js:115-121 | The indent is 2 when no `--indent=` is valid. Otherwise it is the value of the last valid one. Invalid ones are ignored. |
| CliArgs.FlagsDoNotShiftPaths | tools/optimize-json.js:109-124 | Flags placed before or after the positional arguments do not change which arguments are the paths. |
| CliArgs.ParseDecimal | tools/optimize-json.js:116 | `parseInt(…, 10)` reads back a decimal numeral, whatever non-digit text follows. |
| CliArgs.ParseNegativeDecimal | tools/optimize-json.js:116 | With a minus sign in front, `parseInt(…, 10)` reads back the negated value, whatever non-digit text follows. |
| CliArgs.NegativeIndentIgnored | tools/optimize-json.js:115-118 | `--indent=-n` with n > 0, followed by any non-digit text without `=`, is not a valid indent, so the flag is ignored. |
| CliArgs.MinusZeroIndentAccepted | tools/optimize-json.js:115-118 | `--indent=-0` parses to 0, which is not negative, so it is accepted as indent 0. |
| CliArgs.DecimalIndentAccepted | tools/optimize-json.js:115-118 | `--indent=n` followed by any non-digit text without `=` is valid and selects indent n. |
| CliArgs.IndentTextOf | tools/optimize-json.js:116 | `arg.split("=")[1]` is the whole text after `--indent=` when that text has no further `=`. |
| CliArgs.ParseInt10 | tools/optimize-json.js:116 | Definition: `Number.parseInt(…, 10)`, with NaN as no value. Characterised by CliArgs.ParseDecimal and CliArgs.ParseNegativeDecimal. |
| Terminal.SubmitWith | src/components/prts-terminal.tsx:183-198 | A line that is empty after trimming leaves the history unchanged. `clear` in any case empties it. Otherwise the history holds at most `MAX_HISTORY` = 8 entries. |
| Terminal.SubmitAppends | src/components/prts-terminal.tsx:185-198 | Any other line keeps the last seven entries in order and appends one entry. The entry records the trimmed line in its original case, with the reply found under the trimmed lower-cased command, or one of the unknown-command replies. |
| Terminal.HistoryStaysBounded | src/components/prts-terminal.tsx:175-198 | Whatever lines are typed, the history never exceeds 8 entries. |
| Terminal.InheritedMemberIsNotAList | src/components/prts-terminal.tsx:194-198 | As written, "constructor" or "__proto__" stores an entry whose responses are not a list (Findings). |
| Terminal.InheritedMemberIsUnknown | src/components/prts-terminal.tsx:194-196 | Looking up own entries only, those commands get an unknown-command reply (Findings). |
| Terminal.SubmitOwnKeepsLists | src/components/prts-terminal.tsx:194-198 | Looking up own entries only, every entry's responses are a list of lines, as the rendering at src/components/prts-terminal.tsx:243 needs. |
| Terminal.Command | src/components/prts-terminal.tsx:185 | Definition: the command a line stands for, `input.trim().toLowerCase()`. Characterised by Terminal.SubmitAppends. |
| Terminal.Last | src/components/prts-terminal.tsx:198 | `prev.slice(-(MAX_HISTORY - 1))`: the result is a suffix of the list, of length the smaller of the list's length and n. |
| Terminal.LookupAsWritten | src/components/prts-terminal.tsx:194-196 | Definition: `EASTER_EGG_COMMANDS[cmd]` as JavaScript evaluates it, with inherited members included (the as-written half of the second Findings row). Characterised by Terminal.InheritedMemberIsNotAList. |
| Terminal.LookupOwn | src/components/prts-terminal.tsx:194-196 | Definition: the lookup of own entries only, the corrected half. Characterised by Terminal.InheritedMemberIsUnknown and Terminal.SubmitOwnKeepsLists. |
| Roster.VocabularyHasNoPlus | src/lib/utils.ts:6-39 | No selectable item contains '+', so a joined key splits back into its items. |

## Left out

- Browser and React plumbing is not modelled: rendering, memoisation, URL query state, toasts and scrolling.
- Each piece of state is a value passed in and returned: the selection stored in the URL, the terminal history, the change counter of the asset optimiser.
- `Math.random` in the terminal is a parameter `choice < 3`.
- I/O is not modelled: files, `console`, `process.argv`, sharp and glob, Google Vision and its route.
- `logImgPathChange` prints the count. The model returns the count instead.
- The JSON minifier runs `parseArguments` and `optimizeJson` when it is loaded (tools/optimize-json.js:133-137). `optimizeJson` is file I/O and `JSON.stringify`, so only the argument parsing is modelled.
- `formatFileSize` uses floating-point division and is not modelled.
- JavaScript strings are UTF-16 and `toLowerCase`/`toUpperCase` cover all of Unicode. The model uses Dafny characters and maps case on ASCII letters only.
- This matters only for non-ASCII letters typed into the terminal or used in image names.
- JSON numbers are integers in the model. No record field in play is a number.
- `Number.parseInt` is modelled on decimal digits with exact integers. Precision loss for very long inputs is not modelled. JavaScript's `-0` becomes the integer 0; since `-0` is not negative either, both accept `--indent=-0` as indent 0 (CliArgs.MinusZeroIndentAccepted).
- JavaScript lists integer-like keys (canonical array indices such as `"7"`) first and in numeric order. The keys of the objects the model builds are never of that kind:
  - the live filter's and the detector's reports are keyed by tags joined with `" + "`;
  - `Selection.CheckedItems` is keyed by vocabulary tags;
  - the terminal table is keyed by command names. The only all-digit one, `"0011"`, has a leading zero and so is not an array index. The table is only looked up, so its order plays no part anyway.
- Webp: the fields of a `JObj` are those of whatever JSON file the asset optimiser reads, so they may be integer-like. The model takes a `JObj`'s field sequence to be the object's own key order as JavaScript reports it, which the spreads at tools/optimize-assets.js:46-49 and 62 keep, as `Put` does. How `JSON.parse` reorders integer-like keys is not modelled.
- LiveFilter.FilterOperators requires that no operator's `tags` is neither a list nor a string. For such a value, `tags.includes` throws, which the model does not follow.
- LiveFilter.GroupCountBound states the six-item cap of src/components/recruit.tsx:47 as a hypothesis of its second postcondition.
- The cap is not a precondition of the filter itself, since the filter accepts any selection.
- Detector.MinRarity uses 7 for the minimum of an empty list, where JavaScript gives `Infinity`. The report never holds an empty list.
- `isValidTag` and `allTags` are not part of this model. Tag validity is membership in a vocabulary parameter.
- The nuqs parser that rejects unknown tags when reading the URL is left out.
- `applyOcrTags` receives the checkbox setter of src/hooks/useCheckboxState.ts; Selection.OcrTagsThroughSetter assumes that wiring.
- The UI note at src/components/recommend-tags.tsx:189 speaks of combinations of at most two tags. The detector examines three (src/lib/recommendTags.ts:71-78); the model follows the code.
- The note at src/components/recommend-tags.tsx:191 claims repeated operator sets are deduplicated. The detector does no such thing, and neither does the model.
- Webp: JSON records must not repeat a key, as JavaScript objects cannot.

## Findings

| source | as written | input that shows it | evidently intended | confidence | as-written member | corrected member |
|---|---|---|---|---|---|---|
| src/components/recommend-tags.tsx:103-116 | Keys are bucketed by the labels `[星5確定]`/`[星4以上確定]`, but `detectRecommendedTags` (src/lib/recommendTags.ts:94) emits bare `items.join(" + ")` keys, so every entry is dropped and the recommend page is empty | a roster of one rarity-5 operator with no tags: the detector reports its profession, the page shows nothing | each key labelled by its list's minimum rarity, reaching its section with the bare key shown | high; not executed | RecommendView.LoneRarity5Operator | RecommendView.LabelledRecommendPageComplete |
| src/components/prts-terminal.tsx:194-198 | `EASTER_EGG_COMMANDS[cmd]` also finds members inherited from `Object.prototype`; for `constructor` (a function) and `__proto__` (an object) the stored `responses` is not an array, and the history rendering at line 243 calls `.map` on it | typing `constructor` | those commands treated as unknown, every entry holding a list of lines | high; not executed | Terminal.InheritedMemberIsNotAList | Terminal.SubmitOwnKeepsLists |
