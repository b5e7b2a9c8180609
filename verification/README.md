# Translation catalog tools, modelled in Dafny

The translation tool is a set of browser screens. Each screen runs a small
algorithm over JSON translation catalogs. This project models those
algorithms on an immutable JSON datatype and proves what they compute:

- **MergeJson**: the "insert only missing keys" deep merge.
- **KeyDiff**: the recursive differ that reports base key paths missing from
  a compare catalog, as dot-joined strings, each with the line of the base
  text where its last segment appears quoted.
- **LineLocator**: the line lookup shared by the differ and the cleaner.
- **FlatCompare**: the one-level differ.
- **CleanerRules** and **Cleaner**:
  - the eleven pattern tests, each a hand-written recognizer over characters;
  - the deletion rule;
  - the keep/remove split of a catalog.
- **SurveyMerge**: the multi-file survey merge and the selection list.
- **Extractor**: the sorted locale list and the single-locale filter.
- **Splitter**: cutting a catalog into files of 50 entries.

Shared foundations:

- **JsonTree**: JSON values. Objects are insertion-ordered member lists with
  JavaScript's read and write semantics. The module also covers `for ... in`,
  property reads, truthiness and `String(v)`.
- **Text**: JavaScript's string operations. It covers the whitespace set of
  `trim` and `\s`, ASCII `\d`, `\w` and `\b`, the `/i` flag on ASCII letters,
  `split`, decimal numbers and the default `sort` order.
- **Seqs**: subsequences and distinctness.

## Behaviour worth noting

Each point below is what the code does, and the model follows it.

- A base leaf is not always kept by the deep merge. Where the insert holds an
  object at the same path, the leaf is replaced by `{}` and filled from the
  insert (`src/MergeJSON.tsx:21-28`; `MergeJson.InsertObjectsForced`,
  `MergeJson.ExampleLeafReplaced`).
- The nested differ reports an object node, not the leaves under it, when
  the compared catalog lacks the whole object (`src/CompareHardcode.tsx:66-76`).
  Base `{a: {b: 1}}` against `{}` gives `a`.
- The legal-reference exemption of the cleaner matches one of the words NJ,
  PA, REV, IRS, W8 or W9, without regard to case, starting at a word
  boundary, optionally followed by `-` or `_`, then at least two digits
  (`src/Cleaner.tsx:64-65`).
- The splitter's on-screen heading speaks of blocks of 100 lines
  (`src/Splitter.tsx:69`), while the code cuts blocks of 50 entries
  (`src/Splitter.tsx:33`).

## Model

| member | source | states |
|---|---|---|
| JsonTree.GetPut | src/MergeJSON.tsx:26-31 | assigning a key makes it read back the new value and leaves every other key's value as it was |
| JsonTree.ForInProp | src/SurveyMergeJSON.tsx:108-109 | reading back a key that `for ... in` visits yields the value visited with it, for objects with distinct keys, arrays and strings |
| MergeJson.MergeOnlyMissing | src/MergeJSON.tsx:10-40 | base keys keep their positions, including keys whose value became `{}`; keys new to the base follow in the order the insert first lists them |
| MergeJson.MergeGet | src/MergeJSON.tsx:12-33 | keys the insert does not mention keep their value; an insert leaf leaves a present key untouched whatever it holds and fills an absent key; an insert object yields an object merged from the target's object there, or from `{}` |
| MergeJson.MergeNeutral | src/MergeJSON.tsx:10-39 | merging an empty insert, or a catalog into itself, returns the base unchanged |
| MergeJson.MergeIdempotent | src/MergeJSON.tsx:10-39 | merging the same insert a second time changes nothing |
| MergeJson.MergeCoversInsert | src/MergeJSON.tsx:16-33 | the result has every key path of the insert, with an object wherever the insert has one |
| MergeJson.MergeFixpoint | src/MergeJSON.tsx:16-33 | when the target already has every key path of the insert, with objects where the insert has objects, the merge returns the target unchanged |
| MergeJson.MergeIntoFresh | src/MergeJSON.tsx:16-33 | merging an insert none of whose keys the target has appends the insert's members unchanged |
| MergeJson.BasePathsSurvive | src/MergeJSON.tsx:21-33 | every key path of the base still resolves in the result; where the base had an object, the result has one |
| MergeJson.BaseLeafSurvives | src/MergeJSON.tsx:21-33 | a base leaf keeps its value at every path where the insert has no object |
| MergeJson.InsertWins | src/MergeJSON.tsx:16-33 | a key path absent from the base holds exactly the insert's value there |
| MergeJson.InsertObjectsForced | src/MergeJSON.tsx:21-28 | every path where the insert holds an object resolves to an object in the result, whatever the base held there |
| KeyDiff.FindMissingIsJoinedPaths | src/CompareHardcode.tsx:49-79 | the dotted strings the walk builds are the reported key paths joined by `path ? path + "." + key : key` |
| KeyDiff.MissingExactly | src/CompareHardcode.tsx:56-76 | for a base with distinct keys, a path is reported iff it resolves in the base, does not resolve in the compare catalog, and its parent does |
| KeyDiff.AgainstNonObject | src/CompareHardcode.tsx:61-70 | against a compare position that is not an object, every base key at that position is reported |
| KeyDiff.ObjectAgainstLeaf | src/CompareHardcode.tsx:61-74 | when the base holds an object at a key where the compare catalog holds a leaf, the children of that key are reported, not the key itself |
| KeyDiff.SelfComparison | src/CompareHardcode.tsx:66-76 | comparing a catalog with itself reports nothing |
| KeyDiff.CoveredIn | src/CompareHardcode.tsx:66-76 | nothing is reported against a compare catalog that has every key path of the base |
| KeyDiff.MergeFillsMissing | src/CompareHardcode.tsx:49-79 | after merging a catalog's missing keys into another, comparing the catalog against the result reports nothing |
| KeyDiff.SameShapeSameReport | src/CompareHardcode.tsx:69-74 | the report depends only on which keys exist and where objects are, never on leaf values |
| KeyDiff.MissingDistinct | src/CompareHardcode.tsx:66-76 | with distinct keys at every level, no path is reported twice |
| KeyDiff.MissingInOrder | src/CompareHardcode.tsx:66-76 | with distinct keys at every level, paths are reported in depth-first pre-order of the base: a path into an earlier base member comes first, and two paths into the same member keep the walk order below its value |
| KeyDiff.MemberInOrder | src/CompareHardcode.tsx:71-74 | the paths reported for one base member all start with its key and follow the walk order below its value |
| KeyDiff.BeforeAsymmetric | src/CompareHardcode.tsx:66-76 | the walk order is asymmetric: of two paths, at most one comes before the other, and none comes before itself |
| KeyDiff.ReportedPathRoundTrip | src/CompareHardcode.tsx:67 | splitting a reported path at `.` gives back its segments when no segment holds a dot and the first is not empty |
| KeyDiff.LastSegment | src/CompareHardcode.tsx:85-86 | the last `.` piece of a reported path is its last segment when that segment has no dot |
| KeyDiff.CompareKeys | src/CompareHardcode.tsx:43-97 | no report unless both catalogs are loaded (truthy); otherwise one row per missing path |
| KeyDiff.ReportRows | src/CompareHardcode.tsx:84-97 | each row carries the dotted path, and the line of the first base line that quotes its last segment, or 0 |
| LineLocator.PatternIsLiteral | src/CompareHardcode.tsx:89-90 | escaping every metacharacter makes the pattern denote exactly the quoted key, so matching is a substring test |
| LineLocator.LocateLine | src/CompareHardcode.tsx:91-95 | the result is 0 when no line contains `"key"`; otherwise it is the 1-based number of the first line that does |
| LineLocator.FirstLineWith | src/Cleaner.tsx:95-99 | the result is at most the number of lines; it is 0 iff no line contains the pattern; otherwise that line contains it and no earlier line does |
| FlatCompare.CompareFiles | src/Compare.tsx:65-70 | the result's keys are exactly the base keys absent from the compare catalog, and the result is a subsequence of the base in base order |
| FlatCompare.CompareLoaded | src/Compare.tsx:59-72 | nothing is compared unless both files are loaded |
| FlatCompare.ValuesFromBase | src/Compare.tsx:68 | every result member is a base member, value unchanged |
| FlatCompare.CompareSelf | src/Compare.tsx:65-70 | comparing a catalog with itself gives `{}` |
| FlatCompare.CompareEmpty | src/Compare.tsx:65-70 | comparing against `{}` gives the base |
| FlatCompare.OnlyKeysMatter | src/Compare.tsx:67 | only the key set of the compare catalog matters, never its values |
| FlatCompare.MoreKeysFewerMissing | src/Compare.tsx:67 | adding keys to the compare catalog can only remove entries from the result |
| FlatCompare.FlatMatchesDeep | src/Compare.tsx:65-70 | on a base of leaves, the flat differ reports the same keys as the recursive one |
| CleanerRules.MaskedIffTriple | src/Cleaner.tsx:47-48 | the masked test holds iff the untrimmed text has three consecutive `#`/`*` characters |
| CleanerRules.MaskScan | src/Cleaner.tsx:47-48 | a single left-to-right scan counting the current run of `#`/`*` decides the masked test |
| CleanerRules.CodeRegexIffSimple | src/Cleaner.tsx:44-45 | the code-pattern search holds iff some `AA` or `UU` (any case) starts at a word boundary and is followed by a run of `#`/`*` and then a word character |
| CleanerRules.CodeExampleMatch | src/Cleaner.tsx:44-45 | `AA##12` is a code pattern |
| CleanerRules.CodeExampleNoMatch | src/Cleaner.tsx:44-45 | `AA##` is not a code pattern |
| CleanerRules.BlankMatchesNothing | src/Cleaner.tsx:35-56 | an empty or whitespace-only text matches none of the anchored tests |
| CleanerRules.TagIsAngleOnly | src/Cleaner.tsx:35-36 | a lone tag, `<` then a non-empty run without `<` or `>` then `>`, as in `<br/>`, counts as only angle brackets |
| CleanerRules.SpacedTagIsAngleOnly | src/Cleaner.tsx:35-36 | the text is trimmed first: a lone tag with a space on either side, as in `" <b> "`, counts as only angle brackets |
| CleanerRules.NestedAngleNotOnly | src/Cleaner.tsx:35-36 | a text starting `<<`, as in `<<b>`, does not count as only angle brackets |
| CleanerRules.SymbolsOnly | src/Cleaner.tsx:41-42 | a text with no ASCII letter or digit and at least one non-space character counts as symbols only, so letters of other scripts count as symbols |
| CleanerRules.AlnumNotSymbols | src/Cleaner.tsx:41-42 | one ASCII letter or digit anywhere in the text rules out "symbols only" |
| CleanerRules.DigitsPercent | src/Cleaner.tsx:53 | digits followed by `%` are a raw percentage |
| CleanerRules.RangeCharsAreRange | src/Cleaner.tsx:54 | a text made of digits, `.`, `k`, `K`, `m`, `M`, `-` and white space, with at least one non-space character, is a raw range |
| CleanerRules.BoundedRange | src/Cleaner.tsx:54 | a `<` or `>` in front of range characters that end in a non-space still gives a raw range |
| CleanerRules.ForeignCharNotRange | src/Cleaner.tsx:50-56 | one non-space character outside the range set and other than `%`, `<` and `>` rules out both a percentage and a range |
| CleanerRules.NumbersAreRanges | src/Cleaner.tsx:38-39 | every digits-only text also satisfies the range rule |
| CleanerRules.NumericKeyDeleted | src/Cleaner.tsx:72-88 | a key that is digits only after trimming is never exempt and is removed whatever its value |
| CleanerRules.LegalKeyKept | src/Cleaner.tsx:64-75 | the key `NJ-1234` is a legal reference, so it is kept even with the masked value `###` |
| CleanerRules.UrlExample | src/Cleaner.tsx:58-59 | `see https://x.io` contains a URL |
| CleanerRules.MarkdownExample | src/Cleaner.tsx:61-62 | `[a](b)` contains a markdown link |
| CleanerRules.UrlInValueDeleted | src/Cleaner.tsx:72-88 | a URL in the value gives no protection: a masked value under a plain key is removed |
| Cleaner.Clean | src/Cleaner.tsx:69-104 | the run aborts iff some entry is `null`; otherwise every entry lands on exactly one side, so kept plus removed counts the catalog, and the kept entries are a subsequence of the catalog |
| Cleaner.CleanFile | src/Cleaner.tsx:69-70 | a `null` catalog or a `null` entry aborts the run |
| Cleaner.CleanCons | src/Cleaner.tsx:69-104 | an unfolding of `Clean`, one loop step: a `null` entry aborts; otherwise the entry is kept in front of the rest or reported in front of the rest |
| Cleaner.CleanPartition | src/Cleaner.tsx:72-103 | an entry is kept exactly when the deletion rule spares it; a row is reported exactly for a removed entry, with its key, `String(val)` and located line |
| Cleaner.DeletedInOrder | src/Cleaner.tsx:91-100 | removal rows follow the catalog order |
| Cleaner.CleanIdempotent | src/Cleaner.tsx:69-104 | cleaning the cleaned catalog removes nothing more |
| Cleaner.NumericKeysReported | src/Cleaner.tsx:77-100 | an entry with a digits-only key is always reported, on the line that first quotes its key |
| Cleaner.ExemptKeysKept | src/Cleaner.tsx:72-102 | a consequence of the contracts of `Clean` and `ShouldDelete`: an entry whose key holds a URL, a markdown link or a legal reference is always kept |
| Cleaner.ExampleLegalKept | src/Cleaner.tsx:70-88 | the entry `NJ-1234: {"en-US": "###"}` is kept |
| Cleaner.ExampleNullAborts | src/Cleaner.tsx:69-70 | a catalog with a `null` entry aborts the run |
| SurveyMerge.MergeFiles | src/SurveyMergeJSON.tsx:99-126 | files are merged from the empty catalog; at most one file is counted per selected file |
| SurveyMerge.MergedKeys | src/SurveyMergeJSON.tsx:108-114 | the merged keys are those some parsed file gives an object value, in order of first appearance; a later file never moves a key |
| SurveyMerge.MergedLocales | src/SurveyMergeJSON.tsx:112-113 | a key's locales appear in order of first appearance; an override keeps its place |
| SurveyMerge.LastFileWins | src/SurveyMergeJSON.tsx:112-113 | each (key, locale) holds the text of the last parsed file, in selection order, that supplies it |
| SurveyMerge.LocaleUnion | src/SurveyMergeJSON.tsx:113 | a key has a locale iff some parsed file gives that key an object holding that locale |
| SurveyMerge.SpreadGet | src/SurveyMergeJSON.tsx:113 | after `{...prior, ...value}` a locale reads its value in `value` when it has one, else its value in `prior` |
| SurveyMerge.SpreadKeys | src/SurveyMergeJSON.tsx:113 | the spread keeps prior locales in place and appends new ones in order |
| SurveyMerge.FailureIgnored | src/SurveyMergeJSON.tsx:118-121 | a file that fails to parse leaves the merged catalog as it would be without it |
| SurveyMerge.NonObjectFileIgnored | src/SurveyMergeJSON.tsx:111 | a parsed file with no object-valued key is counted and adds nothing |
| SurveyMerge.ProcessedCount | src/SurveyMergeJSON.tsx:117 | `filesProcessed` equals the number of files that parsed |
| SurveyMerge.RemoveFile | src/SurveyMergeJSON.tsx:92-97 | for a shown index, exactly that file goes: the others keep their order and the list is one shorter; an index past the end removes nothing |
| SurveyMerge.RemoveThenMerge | src/SurveyMergeJSON.tsx:92-126 | merging after removing file `i` merges the pairs of the files before and after it |
| Extractor.Locales | src/Extractor.tsx:27-32 | the selector lists the locale keys of all entries, strictly sorted and without repetitions; reading fails iff the catalog or an entry is `null` |
| Extractor.LocalesCanonical | src/Extractor.tsx:32 | that list is the only sorted, repetition-free list of those locales, whatever order the file lists them in |
| Extractor.SortUnique | src/Extractor.tsx:27-32 | sorting the set gives a strictly sorted list with exactly the collected names |
| Extractor.DefaultLocale | src/Extractor.tsx:34 | the preselected locale is the least one listed, or none when the list is empty |
| Extractor.Extract | src/Extractor.tsx:38-39 | nothing is extracted without a file or with an empty or missing selection |
| Extractor.ExtractPairs | src/Extractor.tsx:45-51 | reading fails iff an entry is `null`; otherwise the extracted keys are a subsequence of the catalog keys, in catalog order |
| Extractor.ExtractSound | src/Extractor.tsx:46-49 | every extracted pair is the key of an entry whose text in the selected locale is truthy, with an object holding only that locale and that text |
| Extractor.ExtractComplete | src/Extractor.tsx:46-49 | every entry whose text in the selected locale is truthy is extracted |
| Extractor.ExtractedIff | src/Extractor.tsx:46 | with distinct keys, a key is extracted exactly when its text in the selected locale is truthy |
| Extractor.ExtractIdempotent | src/Extractor.tsx:45-51 | extracting the same locale again from an extracted catalog gives it back |
| Extractor.ExtractedLocales | src/Extractor.tsx:27-51 | a non-empty extracted catalog, loaded again, offers exactly the selected locale |
| Splitter.CutBlocks | src/Splitter.tsx:34-53 | the loop yields ceil(n/50) blocks of 1 to 50 entries, all but the last exactly 50, that concatenate back to the entries in order; block `i` is named `split-part-(i+1).json` |
| Splitter.SplitCatalog | src/Splitter.tsx:32-53 | a `null` catalog fails; otherwise there are ceil(n/50) blocks, so an empty catalog gives none; each block holds 1 to 50 entries, all but the last exactly 50; the blocks concatenate back to the entries; block `i` is named `split-part-(i+1).json` |
| Splitter.PartNamesDistinct | src/Splitter.tsx:51 | different block numbers give different file names |
| Text.LastPieceAfter | src/CompareHardcode.tsx:85-86 | the last piece of `p + "." + k` is `k` when `k` has no dot |
| Text.SplitJoin | src/CompareHardcode.tsx:85-86 | splitting a path joined from dot-free segments gives back those segments |

## Left out

- File reading, downloads, React state and status messages are not modelled. Neither are alerts and rendering, including the HTML highlighter of the flat differ. The parsed catalog, the file text and the selection are parameters; a file that fails to parse is `None`.
- `JSON.parse` and `JSON.stringify` are not modelled. Their output is the `Json` datatype, and the merge's deep clone is the identity on immutable values.
- Numbers are integers. Fractions and exponents only affect `String(v)` of numeric values, which the cleaner tests.
- Objects are member lists with own-key membership. Three JavaScript object behaviours are not modelled:
  - `in` and property reads also see the prototype chain (`constructor`, `toString`);
  - `__proto__` keys;
  - integer-like keys are listed first in ascending order.
- Strings are sequences of code points. The default `sort` compares UTF-16 code units, which differs only for characters outside the Basic Multilingual Plane.
- A key holding `"` or `\` appears escaped in the raw text. The line lookup searches for the key as it is, and so misses such a key. The model keeps that behaviour.
- Runtime failures are modelled as `None` in three places:
  - the cleaner on a `null` entry;
  - the extractor on a `null` catalog or entry;
  - the splitter on a `null` catalog.

  Other runtime failures are not modelled. For example, `key in 5` throws when a compare catalog is a number.
- FlatCompare.CompareLoaded: `None` for either file stands for a file not yet loaded, which raises the alert at src/Compare.tsx:60-62. A catalog that parses to a falsy value (`null`, `0`, `""`, `false`) trips the same alert in the code. Such a catalog, and one that parses to a non-object, is not modelled.
- FlatCompare.CompareFiles: both catalogs are taken as objects. An array or string catalog, whose indices `for ... in` would visit, is not modelled there.
- SurveyMerge.MergeFiles: the files are read one after another. The status message of a failed file, which an asynchronous update can overwrite, is not modelled.
- SurveyMerge.RemoveFile: a negative index counts from the end, as `splice` does. The screen only passes shown indices, so this is modelled but not stated as a property.
- Translate (the machine-translation HTTP client), App and Nav (screen switching) hold no algorithm.
- The commented-out earlier version of the survey merge (src/SurveyMergeJSON.tsx:1-71) is not modelled.
