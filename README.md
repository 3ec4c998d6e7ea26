# Scenario splitting of the Gherkin-to-test converter, in Dafny

The converter reads Gherkin feature files and generates test-class skeletons.
Its one piece of parsing logic is `Generator.splitScenarios`. It takes the raw
text of a feature file and returns an insertion-ordered map. Each key is a
`Scenario:` header line. Each value is an insertion-ordered map from a step line
to the `|` table rows written under that step. The model also covers the two
pure string extensions `capitalizeIt` and `ifNotEmpty`.

Modules, one file each:

- `Wrappers` (`wrappers.dfy`): `Option`, standing for Kotlin's nullable values.
- `Text` (`text.dfy`): the ASCII part of `isWhitespace`, `isBlank`, `trimStart`,
  `lowercase`, `startsWith`, `contains` and `lines()`.
- `Seqs` (`seqs.dfy`): `filter`, first-appearance de-duplication, suffixes and
  contiguous runs.
- `OrderedMaps` (`ordered_maps.dfy`): Kotlin's `mutableMapOf()` (a
  `LinkedHashMap`) as a sequence of entries. Putting a key that is already
  present replaces its value where it stands.
- `Generator` (`generator.dfy`): the model of `splitScenarios`.
  - `Preprocess` is the pure `lines().filter.filterNot.map` chain.
  - `Consume` is one pass of the `forEach` body, branch by branch.
  - `Scan` folds `Consume` over the lines, and `Split` is the whole function.
  - `SplitScenarios` is the loop itself, carrying `scenarioMap` and
    `currentStep`. It is proved to return `Split`.
  - The lemmas state what the scan promises, including its quirks.
- `HelperExtensions` (`helper_extensions.dfy`): `capitalizeIt` and `ifNotEmpty`.

Behaviour worth knowing, each proved below:

- Lines before the first `Scenario:` line leave no trace.
- Any line that mentions "feature" in any letter case is dropped before the scan,
  even a step line.
- A repeated step line keeps its first position, and its table is emptied.
- A repeated header empties that scenario where it stands. Later steps still go
  to the scenario inserted last.
- A `|` row right after a header, before any step, is discarded.
- The `isBlank` branch of the scan can never be taken.

`splitScenarios` gives `#` comment lines and `Examples:` lines no special
treatment: they become steps like any other line. A step line repeated within one
scenario keeps a single entry, and the table written under its earlier occurrence
is lost.

## Model

| member | source | states |
|---|---|---|
| Generator.SplitScenarios | src/jvmMain/kotlin/data/Generator.kt:5-49 | the loop over the preprocessed lines returns `Split(contents)`; its keys are the distinct `Scenario:` lines in order of first appearance; keys are unique at both levels, step keys are step lines and rows are pipe lines; nothing in it is blank, starts with whitespace or mentions "feature" |
| Generator.Preprocess | src/jvmMain/kotlin/data/Generator.kt:7-10 | every line that reaches the scan is not blank, does not start with whitespace and does not contain "feature" in any letter case; every such line is an input line left-trimmed; and every input line that is not blank and does not mention "feature" reaches the scan left-trimmed |
| Generator.TrimmedClean | src/jvmMain/kotlin/data/Generator.kt:8-10 | left-trimming a kept line keeps it non-blank and free of "feature", because the trimmed line is a suffix of the original |
| Generator.SplitClean | src/jvmMain/kotlin/data/Generator.kt:7-46 | no scenario key, step key or table row of the result is blank, starts with whitespace or mentions "feature" |
| Generator.ScanHeaders | src/jvmMain/kotlin/data/Generator.kt:19-24 | the scenario keys are exactly the distinct `Scenario:` lines read, in order of first appearance |
| Generator.ScanShaped | src/jvmMain/kotlin/data/Generator.kt:17-46 | keys are unique at both levels; every scenario key starts with `Scenario:`; every step key is a non-blank line starting with neither `Scenario:` nor a pipe; every table row starts with a pipe |
| Generator.ScanTraced | src/jvmMain/kotlin/data/Generator.kt:17-46 | scan invariant: every key was read; every table is a run of consecutive input lines in input order; when `currentStep` is set and the map is non-empty, it is a key of the last-inserted scenario, and the lines read end with that step line followed by its table, so the table is exactly the lines read since the step line |
| Generator.PreambleIgnored | src/jvmMain/kotlin/data/Generator.kt:26-44 | steps and rows before the first `Scenario:` line leave the result unchanged, because `values.lastOrNull()` is null while the map is empty |
| Generator.NoHeaderNoScenario | src/jvmMain/kotlin/data/Generator.kt:28-43 | without a `Scenario:` line the result is the empty map |
| Generator.RowAfterHeaderDiscarded | src/jvmMain/kotlin/data/Generator.kt:19-32 | a pipe row directly after a `Scenario:` line changes nothing |
| Generator.RowAppended | src/jvmMain/kotlin/data/Generator.kt:26-32 | a pipe row read while a step is current is appended to that step's table in the last-inserted scenario; no key and no other table changes |
| Generator.RepeatedHeaderResets | src/jvmMain/kotlin/data/Generator.kt:19-24 | a repeated `Scenario:` line keeps its key's position, empties that scenario, clears the current step and leaves the other scenarios as they were |
| Generator.StepAfterRepeatedHeader | src/jvmMain/kotlin/data/Generator.kt:19-44 | after a repeated header that is not the last-inserted one, the next step goes into the last-inserted scenario and the repeated one stays empty |
| Generator.RepeatedStepResets | src/jvmMain/kotlin/data/Generator.kt:39-44 | a step line repeated in the last-inserted scenario keeps one entry at its first position and its table becomes empty |
| Generator.OnlyHeadersClearCurrentStep | src/jvmMain/kotlin/data/Generator.kt:34-44 | on a preprocessed line (never blank) other than a header, a set `currentStep` stays set: a pipe row keeps it and a step line replaces it, so the `isBlank` branch is unreachable |
| Generator.RowIsNotHeader | src/jvmMain/kotlin/data/Generator.kt:19-26 | no pipe line is caught by the `Scenario:` branch |
| Generator.AppendRow | src/jvmMain/kotlin/data/Generator.kt:30 | adding a row changes no scenario key and touches only the last-inserted scenario |
| Generator.OpenStep | src/jvmMain/kotlin/data/Generator.kt:43 | on an empty map nothing happens; otherwise, in the last-inserted scenario, a new step goes last and a present step keeps its place, its table becomes empty and every other step keeps its table; no scenario key changes and the earlier scenarios are untouched |
| OrderedMaps.Put | src/jvmMain/kotlin/data/Generator.kt:22 | `map[k] = v` on a `LinkedHashMap`: a new key goes last, a present key keeps its position; `k` then maps to `v` and every other key to what it mapped to before; keys stay unique |
| OrderedMaps.Get | src/jvmMain/kotlin/data/Generator.kt:30 | a lookup succeeds exactly for present keys and returns that key's entry |
| OrderedMaps.LastValuePut | src/jvmMain/kotlin/data/Generator.kt:22 | "last" follows insertion order: putting a new key makes its value the last value, and re-putting a key other than the last one leaves the last value unchanged |
| OrderedMaps.UpdateLast | src/jvmMain/kotlin/data/Generator.kt:43 | changing the last-inserted value in place keeps every key and every other entry |
| OrderedMaps.IndexOf | src/jvmMain/kotlin/data/Generator.kt:22 | the position of a key is its first entry, or -1 exactly when it is absent |
| Text.Lines | src/jvmMain/kotlin/data/Generator.kt:7 | `lines()` gives at least one line, and no line contains a line break |
| Text.LinesRoundTrip | src/jvmMain/kotlin/data/Generator.kt:7 | gluing the lines back with "\n" gives the text with every "\r\n" and lone "\r" turned into "\n" |
| Text.TrimStart | src/jvmMain/kotlin/data/Generator.kt:10 | `trimStart()` returns a suffix that does not start with whitespace, and only whitespace was removed |
| Text.TrimStartNotBlank | src/jvmMain/kotlin/data/Generator.kt:8-10 | left-trimming a non-blank line leaves a non-blank line |
| Text.Lowercase | src/jvmMain/kotlin/data/Generator.kt:9 | `lowercase()` keeps the length, lowers each ASCII capital to the small letter at the same place in the alphabet, keeps every other character, and leaves no capital |
| Text.ContainsFromSuffix | src/jvmMain/kotlin/data/Generator.kt:9-10 | a text contains whatever one of its suffixes contains |
| Seqs.Filter | src/jvmMain/kotlin/data/Generator.kt:8-9 | `filter` keeps exactly the elements satisfying the predicate, and is no longer than its input |
| HelperExtensions.CapitalizeIt | src/jvmMain/kotlin/common/HelperExtensions.kt:9-15 | the empty string stays empty; the length is kept; characters after the first never change; a lowercase first character becomes the capital whose lowercase form it is; otherwise the string is unchanged; the result never starts with a lowercase letter |
| HelperExtensions.CapitalizeItIdempotent | src/jvmMain/kotlin/common/HelperExtensions.kt:9-15 | applying `capitalizeIt` twice equals applying it once |
| HelperExtensions.TitleChar | src/jvmMain/kotlin/common/HelperExtensions.kt:11-13 | the titlecase of an ASCII lowercase letter is the capital whose lowercase form it is |
| HelperExtensions.IfNotEmpty | src/jvmMain/kotlin/common/HelperExtensions.kt:17-19 | a null receiver gives "", an empty receiver gives "" whatever the block yields, and any other receiver gives exactly the block's result |
| OrderedMaps.LastValue | src/jvmMain/kotlin/data/Generator.kt:30 | `values.lastOrNull()` is null exactly for the empty map, and otherwise the value of the last entry, which LastValuePut ties to insertion order |
| Generator.Consume | src/jvmMain/kotlin/data/Generator.kt:17-45 | one pass of the `forEach` body, branch by branch; it has no contract of its own: ScanHeaders, ScanShaped, ScanTraced and the lemmas on the quirks state what it does |
| Generator.Scan | src/jvmMain/kotlin/data/Generator.kt:13-46 | the state after the whole loop, from the empty map and a null `currentStep`; it has no contract of its own: the lemmas on the scan state what it computes |
| Generator.Split | src/jvmMain/kotlin/data/Generator.kt:5-49 | the result of `splitScenarios`; it has no contract of its own: SplitScenarios is proved to compute it, and SplitClean states what it holds |
| Generator.IsHeader | src/jvmMain/kotlin/data/Generator.kt:19 | a line is a scenario header exactly when it is at least nine characters long and its first nine characters are `Scenario:` |
| Generator.IsStepLine | src/jvmMain/kotlin/data/Generator.kt:39-44 | a line reaches the step branch exactly when it is neither a header nor a row and is not blank; it has no contract of its own, and ScanShaped, NewStepAppended and RepeatedStepResets state what happens to such a line |
| Generator.MentionsFeature | src/jvmMain/kotlin/data/Generator.kt:9 | the `filterNot` test: the lower-cased line contains `feature`; it has no contract of its own, and MentionsFeatureAnyCase and Preprocess state its meaning |
| Text.StartsWith | src/jvmMain/kotlin/data/Generator.kt:19 | `startsWith(prefix)`: the prefix is no longer than the text and equals its first characters; it has no contract of its own, and IsHeader and IsRow state what it gives for `Scenario:` and the pipe |
| Text.LowerChar | src/jvmMain/kotlin/data/Generator.kt:9 | the per-character mapping of `lowercase()`: the result is never a capital, a capital becomes the small letter at the same place in the alphabet, and every other character is kept |
| Generator.IsRow | src/jvmMain/kotlin/data/Generator.kt:26 | a line is a table row exactly when it is non-empty and its first character is a pipe |
| Generator.MentionsFeatureAnyCase | src/jvmMain/kotlin/data/Generator.kt:9 | a line holding "feature" spelt in any letter case at any position mentions "feature", so it is dropped |
| Generator.TrimAll | src/jvmMain/kotlin/data/Generator.kt:10 | `map { it.trimStart() }` trims each line at its own position, keeps every trimmed line and adds no other |
| Generator.KeptLines | src/jvmMain/kotlin/data/Generator.kt:8-9 | the two filters keep exactly the lines that are not blank and do not mention "feature" |
| Generator.NewStepAppended | src/jvmMain/kotlin/data/Generator.kt:39-44 | a step line not yet in the last-inserted scenario becomes its last step with an empty table, and is the current step |
| Text.IsWhitespace | src/jvmMain/kotlin/data/Generator.kt:8-10 | the ASCII characters Kotlin's `isWhitespace` accepts: tab to carriage return, the four information separators and space; it has no contract of its own, and BlankIffTrimmedEmpty relates it to trimming |
| Text.IsBlank | src/jvmMain/kotlin/data/Generator.kt:8 | `isBlank`: empty or whitespace only; it has no contract of its own, and BlankIffTrimmedEmpty states its meaning |
| Text.BlankIffTrimmedEmpty | src/jvmMain/kotlin/data/Generator.kt:8-10 | a line is blank exactly when nothing is left after trimming its leading whitespace |
| Text.Contains | src/jvmMain/kotlin/data/Generator.kt:9 | `contains(pattern)` holds exactly when the pattern starts at some position of the text |
| HelperExtensions.IsLower | src/jvmMain/kotlin/common/HelperExtensions.kt:11 | `isLowerCase()` on ASCII holds exactly for the lowercase forms of the capitals |
| HelperExtensions.IsNullOrEmpty | src/jvmMain/kotlin/common/HelperExtensions.kt:18 | `isNullOrEmpty()` holds exactly for null and the empty string |

## Left out

- The Compose user interface, animations, coroutine delays and preference
  persistence in `Main.kt` are not modelled. Neither are the generation steps it
  calls (`processScenarios`, `createSwiftFile`, `clearOldTestFiles`,
  `openFileDialogAndValidateScenarioPath`, `formatWithParam`): their bodies are
  not part of this model.
- `FileHandler.kt` is not modelled: file-chooser dialogs, directory listing
  (`readScenarios`) and file reading are operating-system I/O.
- `printIt` is console output and is not modelled.
- Fonts, colours, the string constants in `Dictionary.kt` and the build script
  carry no behaviour.
- Unicode: whitespace, `lowercase`, `isLowerCase` and `titlecase` are modelled
  on ASCII only. Non-ASCII whitespace, non-ASCII case mappings and the default
  `Locale` are not modelled.
- `lines()` is modelled as splitting at "\r\n", "\n" and "\r", which is what
  Kotlin does.
- In-place mutation: the source mutates the nested maps and lists it builds.
  The model replaces them by new values. Nothing is lost by this: every inner map
  and list is created fresh inside `splitScenarios` and never shared or escapes
  before the result is returned.
- HelperExtensions.CapitalizeIt: does not model `titlecase` on non-ASCII
  lowercase letters, which can change the length (for example "ß" becomes "Ss");
  such characters are treated as not lowercase.
- HelperExtensions.IfNotEmpty: takes the block's result as a value, so it does
  not model that the source does not run the block when the receiver is null or
  empty.
