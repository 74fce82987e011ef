# Intl.DateTimeFormat explorer — a Dafny model

This project models the logic of a small React page for exploring
`Intl.DateTimeFormat`. A user picks a test date and a list of locales, and
keeps a list of named format configurations. A configuration is an options
object built with a form of selects, a checkbox and text fields. The page
formats the date once per (locale, configuration) pair and shows the results
in a table. It also reports how many cells failed. The repository also holds a
second component, `DateComparisonDisplay`, which the page does not mount. It
compares one options object across the locales. It lists the distinct
renderings and groups the locales by rendering. It marks each result
"Primary" or "Variant" and shows the resolved options of the first locale
the platform accepts.

The formatter itself is not modelled. `Platform.Platform` is an oracle
parameter with two functions:

- `construct`: the `new Intl.DateTimeFormat(locale, options)` constructor,
  which either yields resolved options or throws.
- `format`: its `format(date)` call, which either yields a string or throws.

Every proof holds for every such platform. So the properties are about what
the page does with the formatter's answers, not about what those answers
are.

Modules, one per source component:

| module | file | models |
|---|---|---|
| `Wrappers` | wrappers.dfy | `Option` and `Result` |
| `Sequences` | sequences.dfy | first-seen de-duplication (`Array.from(new Set(...))`), occurrence counts |
| `Text` | text.dfy | decimal rendering and parsing of numbers, `join(", ")` and its inverse |
| `DateTimeOptions` | options.dfy | the options object as an ordered list of entries, `updateOption`, the selector's controls |
| `Intl` | intl.dfy | `stringifyOptions`, the one-line preview of an options object |
| `Platform` | platform.dfy | the formatter oracle, the try/catch around it, JavaScript truthiness of an error field |
| `FormatsManager` | formats.dfy | adding, removing, editing and renaming format configurations |
| `TableComparison` | table.dfy | the locale × format result matrix, the cell lookup, the error count |
| `ComparisonDisplay` | comparison.dfy | the single-options comparison view |
| `App` | app.dfy | the page state, its events, and the invariant it keeps |

An options object is an ordered list of `(key, value)` entries with distinct
keys. This follows JavaScript's insertion order for string keys. Assigning an
existing key keeps its place. Assigning a new key appends it. `delete`
removes the entry and keeps the rest in order. So the previews rendered by
`Object.entries` are exact strings, not just sets of segments.

Two consequences of the code are worth stating. Neither shows up in normal use.

- `FormatsManager.RemoveFormat` removes every format with the given id.
  The "at least one format remains" floor therefore depends on ids being
  distinct. `FormatsManager.RemoveFormatSharedIdEmpties` shows two formats
  sharing an id being removed together, leaving none.
- New format ids are `"format-"` followed by the clock's millisecond
  reading. So two additions within the same millisecond share an id. This
  is `App.SameStampTwiceSharesId`. Removing that id then removes both
  formats, and `App.SameStampCanEmptyFormats` gives a run that ends with no
  format at all, and so an empty table. The page keeps format ids distinct
  only for runs whose "Add format" clicks read clock values with unused
  ids. That hypothesis is `App.FreshStamp` (one event) and `App.FreshRun`
  (a whole run). `App.StepKeepsInvariant`, `App.RunKeepsInvariant` and
  `App.ReachableCellsAreRight` assume it. The locale floor needs no
  hypothesis (`App.StepKeepsLocales`, `App.RunKeepsLocales`).

`stringifyOptions` joins `Object.entries(options)` with `", "` in
insertion order. It does not truncate, and it renders an options object
with no properties as the empty string. `Intl.StringifyOptions` and its
lemmas state exactly that.

## Model

| member | source | states |
|---|---|---|
| Sequences.Distinct | src/components/DateComparisonDisplay.tsx:33 | the de-duplicated list has no repeats, holds exactly the elements of the input, and is no longer than it |
| Sequences.DistinctFirstSeenOrder | src/components/DateComparisonDisplay.tsx:33 | the distinct values keep the order in which each first appears in the input |
| Sequences.DistinctHead | src/components/DateComparisonDisplay.tsx:33 | the first distinct value is the first value of the input |
| Sequences.DistinctMoreThanOne | src/components/DateComparisonDisplay.tsx:77 | there is more than one distinct value exactly when two input values differ |
| Text.NatToString | src/components/MultipleFormatsManager.tsx:39 | a number renders as a non-empty run of digits with no leading zero |
| Text.ParseNatToString | src/components/MultipleFormatsManager.tsx:39 | parsing the rendered number gives the number back |
| Text.IntToString | src/lib/intl.ts:3 | an integer renders with a minus sign exactly when negative, and its digits parse back to its magnitude |
| Text.JoinCommaCount | src/lib/intl.ts:4 | joining n comma-free parts with ", " gives a string with exactly n - 1 commas |
| Text.SplitJoin | src/lib/intl.ts:4 | splitting a ", "-joined list of comma-free parts recovers the parts |
| DateTimeOptions.Name | src/components/DateTimeOptionsSelector.tsx:13-37 | every option name is non-empty and contains no colon, comma or blank |
| DateTimeOptions.KeyNamedName | src/components/DateTimeOptionsSelector.tsx:13-37 | every option name reads back to its own option |
| DateTimeOptions.NameInjective | src/components/DateTimeOptionsSelector.tsx:13-37 | distinct options have distinct names |
| DateTimeOptions.Lookup | src/components/DateTimeOptionsSelector.tsx:98 | reading a key is undefined exactly when the key is absent, and otherwise yields the value stored with it |
| DateTimeOptions.DeleteMembers | src/components/DateTimeOptionsSelector.tsx:85 | `delete` leaves exactly the entries of other keys |
| DateTimeOptions.LookupAssign | src/components/DateTimeOptionsSelector.tsx:87 | after assigning a key, that key reads the new value and every other key reads as before |
| DateTimeOptions.LookupDelete | src/components/DateTimeOptionsSelector.tsx:85 | after deleting a key, it reads as undefined and every other key reads as before |
| DateTimeOptions.DeleteKeepsOrder | src/components/DateTimeOptionsSelector.tsx:85 | deleting a present key removes exactly its entry and keeps the others in order |
| DateTimeOptions.UpdateOption | src/components/DateTimeOptionsSelector.tsx:79-90 | `undefined` or "" removes the key, any other value is stored under it, other keys keep their values, and keys stay distinct |
| DateTimeOptions.UpdateOptionIdempotent | src/components/DateTimeOptionsSelector.tsx:79-90 | the same update applied twice gives the same options as once |
| DateTimeOptions.UpdateOptionOrder | src/components/DateTimeOptionsSelector.tsx:83-88 | the update replaces the entry in place, appends a new key at the end, or removes the entry, leaving the other entries in order |
| DateTimeOptions.OnSelect | src/components/DateTimeOptionsSelector.tsx:97-106 | choosing the "none"/"local"/"auto" item removes the key, any other item is stored as that string, and other keys are untouched |
| DateTimeOptions.ReselectShownIsNoOp | src/components/DateTimeOptionsSelector.tsx:98-106 | choosing the item a select already shows leaves the options exactly as they were |
| DateTimeOptions.OnFractionalSelect | src/components/DateTimeOptionsSelector.tsx:354-377 | "none" removes fractional second digits, a digit item stores its parsed number, including 0 |
| DateTimeOptions.ReselectFractionalIsNoOp | src/components/DateTimeOptionsSelector.tsx:355-364 | the shown fractional item is one of the select's items, and choosing it again changes nothing |
| DateTimeOptions.OnHour12Change | src/components/DateTimeOptionsSelector.tsx:435-438 | the checkbox is checked exactly when `hour12` is stored as true, and `hour12` is never stored as false |
| DateTimeOptions.OnTextInput | src/components/DateTimeOptionsSelector.tsx:472-488 | empty calendar or numbering-system text removes the key, and other text is stored as typed |
| Intl.Segments | src/lib/intl.ts:2-3 | one segment per entry, in entry order |
| Intl.StringifyOptions | src/lib/intl.ts:1-5 | the preview is empty exactly when no option is set, and a single option previews as its own segment |
| Intl.ParseOneSegment | src/lib/intl.ts:3 | a segment reads back as the option's name and its value text |
| Intl.PreviewRoundTrip | src/lib/intl.ts:1-5 | a preview of comma-free values reads back to the exact list of (name, value) pairs in order |
| Intl.PreviewSeparators | src/lib/intl.ts:4 | a preview of n comma-free options holds exactly n - 1 commas |
| Intl.PreviewOfAddedOption | src/lib/intl.ts:1-5 | setting a new option on a non-empty options object extends the preview by ", " and that option's segment |
| Intl.SegmentPrefix | src/lib/intl.ts:3 | a segment starts with "name: " exactly when it renders that option |
| Intl.ClearedKeyNotRendered | src/lib/intl.ts:2-3 | after clearing an option its name heads no segment, and every other option's segment remains |
| Platform.Attempt | src/components/TableDateComparison.tsx:36-47 | success carries the formatter's string and needs the constructor to succeed, and failure carries the thrown error's message or "Unknown error" |
| FormatsManager.AddFormat | src/components/MultipleFormatsManager.tsx:36-46 | one format is appended with the given id and the default options, named "Format " followed by the new count in plain decimal, with no leading zero |
| FormatsManager.WithoutIdMembers | src/components/MultipleFormatsManager.tsx:50 | the filter keeps exactly the formats with another id |
| FormatsManager.RemoveFormat | src/components/MultipleFormatsManager.tsx:48-52 | with one format nothing changes, and otherwise exactly the formats with that id go |
| FormatsManager.RemoveFormatUniqueIds | src/components/MultipleFormatsManager.tsx:48-52 | with distinct ids, removal drops only the position of that id, the list never drops below one format, and ids stay distinct |
| FormatsManager.RemoveFormatSharedIdEmpties | src/components/MultipleFormatsManager.tsx:49-50 | two formats sharing an id are removed together, leaving none |
| FormatsManager.AddThenRemove | src/components/MultipleFormatsManager.tsx:36-52 | adding a format with a fresh id and removing it restores the list |
| FormatsManager.AddFormatKeepsIdsUnique | src/components/MultipleFormatsManager.tsx:36-46 | a fresh id keeps ids distinct |
| FormatsManager.UpdateFormat | src/components/MultipleFormatsManager.tsx:54-56 | only the options of formats with that id change, and ids, names and order are kept |
| FormatsManager.UpdateFormatProperties | src/components/MultipleFormatsManager.tsx:54-56 | updating keeps ids distinct, is idempotent, and gives the edited format the new options |
| FormatsManager.StartEditingName | src/components/MultipleFormatsManager.tsx:58-61 | editing starts on the format's id with its current name |
| FormatsManager.Rename | src/components/MultipleFormatsManager.tsx:66-68 | only the names of formats with that id change |
| FormatsManager.SaveName | src/components/MultipleFormatsManager.tsx:63-73 | during an edit the edited formats are renamed and the edit cleared, and otherwise nothing changes |
| FormatsManager.SaveNameKeepsIds | src/components/MultipleFormatsManager.tsx:63-73 | saving a name keeps the number of formats and leaves their ids distinct |
| FormatsManager.CancelEdit | src/components/MultipleFormatsManager.tsx:75-78 | no edit remains and the typed name is cleared |
| FormatsManager.StartThenSaveIsNoOp | src/components/MultipleFormatsManager.tsx:58-73 | when the formats have distinct ids, starting a rename and saving without typing changes no format |
| FormatsManager.RenameOnlyEdited | src/components/MultipleFormatsManager.tsx:58-73 | when the formats have distinct ids, starting a rename, typing and saving renames that format and no other |
| TableComparison.FormatCell | src/components/TableDateComparison.tsx:32-48 | a cell is tagged with its locale and format id, and holds the formatted string with no error or "" with the thrown message |
| TableComparison.AllResults | src/components/TableDateComparison.tsx:50-52 | the matrix has one cell per (locale, format) pair |
| TableComparison.AllResultsAt | src/components/TableDateComparison.tsx:50-52 | entry i·|formats|+j is locale i formatted with format j |
| TableComparison.EntryIsCell | src/components/TableDateComparison.tsx:50-52 | every entry is the cell of some listed locale with some listed format |
| TableComparison.CellIsolation | src/components/TableDateComparison.tsx:50-52 | a cell depends only on its own locale, its own format and the date |
| TableComparison.UpdateFormatChangesOneColumn | src/components/TableDateComparison.tsx:50-52 | editing one format's options leaves every cell of the other formats unchanged |
| TableComparison.GetResultForLocaleAndFormat | src/components/TableDateComparison.tsx:54-68 | the lookup returns the first cell with that locale and format id, or the "No result" placeholder when none exists |
| TableComparison.LookupFindsCell | src/components/TableDateComparison.tsx:54-68 | the lookup finds a cell exactly when the locale is listed and a format has that id, and then it is that locale formatted with the first format with that id |
| TableComparison.ErrorCount | src/components/TableDateComparison.tsx:70 | the count is at most the number of cells, 0 exactly when no cell has an error, and full exactly when every cell has one |
| TableComparison.ErrorCountAppend | src/components/TableDateComparison.tsx:70 | the count adds up over concatenation and counts one cell as 1 exactly when its error is truthy, so it is the number of cells with a truthy error |
| TableComparison.ErrorCountBounds | src/components/TableDateComparison.tsx:70-71 | the error count never exceeds the number of combinations |
| TableComparison.AllErrorsMeansAllFail | src/components/TableDateComparison.tsx:70-71 | an error count equal to the number of combinations means every pair failed |
| TableComparison.AllFailMeansAllErrors | src/components/TableDateComparison.tsx:70-71 | every pair failing gives an error count equal to the number of combinations |
| ComparisonDisplay.FormatForLocale | src/components/DateComparisonDisplay.tsx:18-30 | a result has no error exactly when constructing and formatting both succeed, and otherwise holds "" and the message |
| ComparisonDisplay.Results | src/components/DateComparisonDisplay.tsx:32 | one result per locale, in locale order |
| ComparisonDisplay.SuccessStringsMembers | src/components/DateComparisonDisplay.tsx:33 | the successful strings are exactly the strings of results without an error |
| ComparisonDisplay.UniqueFormatsProperties | src/components/DateComparisonDisplay.tsx:33 | the unique formats have no repeats, are exactly the successful strings in first-seen order, and number at most the successes, which number at most the locales |
| ComparisonDisplay.LocalesWithFormat | src/components/DateComparisonDisplay.tsx:151-153 | a rendering lists as many locales as there are successful results with that string |
| ComparisonDisplay.LocalesWithFormatSnoc | src/components/DateComparisonDisplay.tsx:151-153 | a rendering lists the locales of the successful results with that string in result order: one more result adds its locale at the end exactly when it succeeded with that string |
| ComparisonDisplay.LocalesWithFormatMembers | src/components/DateComparisonDisplay.tsx:151-153 | a rendering lists exactly the locales whose successful result has that string |
| ComparisonDisplay.GroupsFor | src/components/DateComparisonDisplay.tsx:150-167 | one group per unique format, carrying that format and its locales |
| ComparisonDisplay.GroupsPartition | src/components/DateComparisonDisplay.tsx:150-167 | every successful locale is listed under its own rendering, every listed locale rendered that way, and the groups list exactly as many entries as there are successes |
| ComparisonDisplay.GroupsDisjoint | src/components/DateComparisonDisplay.tsx:150-167 | no locale is listed in two groups |
| ComparisonDisplay.PrimaryIsFirstSuccess | src/components/DateComparisonDisplay.tsx:106-110 | a result is badged "Primary" exactly when it succeeded with the first successful locale's string, and that locale is always "Primary" |
| ComparisonDisplay.GroupedViewIffDivergence | src/components/DateComparisonDisplay.tsx:143 | the grouped card appears exactly when two successful results differ |
| ComparisonDisplay.FirstValidLocale | src/components/DateComparisonDisplay.tsx:44-51 | there is none exactly when no locale constructs, and otherwise it is the first locale that constructs |
| ComparisonDisplay.SuccessMeansValidLocale | src/components/DateComparisonDisplay.tsx:44-51 | a result without an error implies a valid locale exists |
| ComparisonDisplay.ResolvedOptionsShown | src/components/DateComparisonDisplay.tsx:35-53 | resolved options are shown exactly when the first valid locale exists and is not the empty string, and they are that locale's |
| ComparisonDisplay.ResolvedOptionsIffValidLocale | src/components/DateComparisonDisplay.tsx:53 | when the empty tag is rejected, the card is missing exactly when no locale is accepted |
| ComparisonDisplay.KeyLabel | src/components/DateComparisonDisplay.tsx:130 | a label has no capital letters and is one character longer per capital of the key |
| ComparisonDisplay.KeyLabelRoundTrip | src/components/DateComparisonDisplay.tsx:130 | a key without blanks can be read back from its label |
| ComparisonDisplay.ResolvedRowsContent | src/components/DateComparisonDisplay.tsx:125-136 | the card lists, in order, one labelled row per resolved property other than `locale` |
| ComparisonDisplay.OthersMembers | src/components/DateComparisonDisplay.tsx:126 | the listed properties are exactly the resolved ones not named `locale` |
| App.AddLocale | src/App.tsx:40-42 | "en-GB" is appended and the other locales are kept |
| App.WithoutIndexSlice | src/App.tsx:46 | filtering out one index removes exactly that position, and an index outside the list removes nothing |
| App.RemoveLocaleProperties | src/App.tsx:44-48 | removal takes out only that row, never empties the list, and undoes "add locale" |
| App.UpdateLocale | src/App.tsx:50-54 | only the chosen row changes |
| App.UpdateLocaleUndo | src/App.tsx:50-54 | choosing a row's current locale changes nothing, and choosing the old locale back undoes a change |
| App.FormatId | src/components/MultipleFormatsManager.tsx:38 | a new id is "format-" followed by digits that parse back to the clock reading, with no leading zero |
| App.InitialState | src/App.tsx:14-38 | the page starts with four locales and three formats with distinct ids |
| App.InitialPreview | src/App.tsx:15-20 | the first initial format previews as "dateStyle: medium, timeStyle: short" |
| App.StepKeepsLocales | src/App.tsx:40-54 | every event keeps at least one locale, whatever the clock reads |
| App.RunKeepsLocales | src/App.tsx:40-54 | every run keeps at least one locale, whatever the clock reads |
| App.StepKeepsInvariant | src/App.tsx:40-54 | an event whose "Add format" clock reading gives an unused id keeps at least one locale, at least one format, and distinct format ids |
| App.RunKeepsInvariant | src/App.tsx:12-54 | for runs whose "Add format" clock readings give unused ids, every state reached from a valid state keeps the invariant |
| App.ReachableCellsAreRight | src/components/TableDateComparison.tsx:138-142 | for runs from the initial page whose "Add format" clock readings give unused ids, the table is not empty and each cell shows its own locale formatted with its own format |
| App.SameStampTwiceSharesId | src/components/MultipleFormatsManager.tsx:36-52 | two additions at the same millisecond share an id, and removing it removes both |
| App.SameStampCanEmptyFormats | src/components/MultipleFormatsManager.tsx:36-52 | two same-millisecond additions followed by four removals leave no format at all |

## Left out

- The formatter's behaviour. `Intl.DateTimeFormat` is a parameter, so locale data, calendars, time zones and the actual strings are not modelled.
- Dates are plain integers. `DatePickerInput.tsx` and the `toISOString` rendering are not part of this model.
- `LocaleSelector.tsx` and the time-zone list are not part of this model. A chosen locale or zone is any string.
- Rendering is left out: JSX layout, badge colours, pluralised counts, React keys, and the Enter and Escape bindings of the rename field. The model keeps the data each view shows.
- Date.now is left out. The clock reading for a new format id is an event parameter. The page accepts any reading, repeated ones included. The results that need distinct ids assume fresh readings, as the lines below say.
- `new Date()` at load is left out. The initial date is a parameter of `App.Initial`.
- App.StepKeepsInvariant: assumes `App.FreshStamp`, that an "Add format" click reads a clock value whose id is unused. Two clicks within one millisecond break that, and `App.SameStampCanEmptyFormats` shows the consequence.
- App.RunKeepsInvariant: assumes `App.FreshRun`, which is `App.FreshStamp` for every event of the run.
- App.ReachableCellsAreRight: assumes `App.FreshRun` from the initial page. Without it the table can become empty (`App.SameStampCanEmptyFormats`).
- Text.IntToString: renders every integer in plain decimal. JavaScript switches to exponent form from 10^21 in magnitude. The selector only ever stores the numbers 0 to 3 (src/components/DateTimeOptionsSelector.tsx:371-375).
- ComparisonDisplay.KeyLabel: lower-cases ASCII letters only. JavaScript's `toLowerCase` also folds other scripts, but option names are ASCII.
- App.UpdateLocale: requires an index inside the list, because every caller passes a row's own index. Assigning past the end of a JavaScript array would create holes, and that is not modelled.
- Exceptions with an empty message: an error field counts as set when it holds a non-empty message. So an exception whose message is "" counts as a success, as it does in the code, and the model does not treat that case separately.
- ComparisonDisplay.ResolvedOptionsIffValidLocale: assumes the platform rejects the empty locale tag. Without that, a first valid locale of "" hides the card even though a locale was accepted.
- Intl.PreviewRoundTrip: stated for option values without commas. A value containing ", " cannot be read back unambiguously.
