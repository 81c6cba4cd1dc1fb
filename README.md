# TalkingLeaves coverage engine in Dafny

TalkingLeaves is a plugin for the Glyphs font editor. For one writing
script, it shows which languages a font supports, using the hyperglot
language database. This project models the plugin's computational core and
proves properties of it. The core lives in
`TalkingLeaves.glyphsPlugin/Contents/Resources/TalkingLeaves.py`: the
glyph-info cache, one coverage pass over the database, the script catalogue
with its speaker totals, the table builder, the cell converters, the
status-bar percentage, the selected-characters lists with their clipboard
renderings, and the `charList` comparison.

The model has the Python code's own shape:

- The plugin object is the class `Plugin.TalkingLeaves`. Its fields are the
  ones the code updates in place: `glyphInfoByChar`, `charsByGlyphName`,
  `allMarks`, `scriptsLangCount`, `currentScriptSupported` and
  `currentScriptUnsupported`.
- The methods keep the code's loops. Each method is proved against a
  specification function written on values.
- The class invariant `Valid` says that the two caches agree with the
  editor's glyph naming and are inverses of each other.

Modules, one file each:

| file | module | contents |
|---|---|---|
| `wrappers.dfy` | `Wrappers` | `Option`, `Result` and the Python exceptions the core can raise |
| `pytext.dfy` | `PyText` | `str.split()`, `str.join`, Python whitespace |
| `numfmt.dfy` | `NumFormat` | `str(n)`, `f"{n:0X}"`, `f"U+{n:04X}"` and reading them back |
| `pysort.dfy` | `PySort` | list filtering, the stable `sorted(key=...)`, `sorted(set(...))`, Python's string order |
| `hyperglot.dfy` | `Hyperglot`, `GlyphsHost` | the database records; the editor's glyph info |
| `coverage.dfy` | `Coverage` | one coverage pass (`getLangsForScript_`) as values, with its properties |
| `coverage_examples.dfy` | `CoverageExamples` | concrete passes: the two-language scenario, marks that persist across calls, length-versus-count ordering |
| `catalogue.dfy` | `Catalogue` | `getScriptsAndSpeakers` as values, with its properties |
| `tables.dfy` | `Tables` | `tableFrom2dArray_withHeaders_` |
| `cells.dfy` | `Cells` | the three cell converters, the status-bar percentage, `charList.__lt__` |
| `exports.dfy` | `Exports` | the selected-characters lists and the copy actions' strings |
| `plugin.dfy` | `Plugin` | the class `TalkingLeaves` and its methods |

Inputs that the code reads from its surroundings are parameters of the model:

- The language database is a sequence of `Language` records. Each orthography
  holds hyperglot's `base_chars` and `base_marks` as character sequences.
- The editor's `Glyphs.glyphInfoForUnicode` is the function `lookup` from
  character to glyph info.
- The font's glyph names are a set.
- The two check boxes are booleans in `Coverage.Context`.
- The selected table rows are a sequence of rows.

Where the code does something other than its names or docstrings suggest,
the model follows the code:

- The `charList` docstring (line 781) says the Missing column sorts by list
  length. Line 344 sorts rows by the length of the joined Missing Chars
  string instead. A row missing four plain characters sorts before a row
  missing three marks (`SortedByLengthNotCount`). The `charList.__lt__`
  comparison is never used by that sort.
- Line 372 adds a language's speakers once for each of its orthographies in
  the script (`OrthoSpeakersCount`).
- `allMarks` is never reset (line 319). A mark seen in one pass gets its
  dotted circle in all later passes, so the first and second calls can
  differ (`FirstCallDiffers`). Once every mark of the script has been seen,
  calls repeat exactly (`RepeatAfterMarksSeen`).
- Line 420 has no zero guard. The percentage is a `ZeroDivisionError` when
  the script has no orthography (`Percent`). A script picked from the
  scripts table always has one (`CataloguedScriptPercent`).

## Model

| member | source | states |
|---|---|---|
| `Plugin.TalkingLeaves.constructor` | TalkingLeaves.glyphsPlugin/Contents/Resources/TalkingLeaves.py:83-92 | the caches, the marks and the script counts start empty |
| `Plugin.TalkingLeaves.GlyphInfoForChar` | TalkingLeaves.glyphsPlugin/Contents/Resources/TalkingLeaves.py:348-357 | returns the editor's info for `c`; both caches gain exactly the entry for `c` and its inverse; the editor is asked only when `c` was not cached; the caches stay consistent |
| `Plugin.TalkingLeaves.QueryNames` | TalkingLeaves.glyphsPlugin/Contents/Resources/TalkingLeaves.py:305 | the names are the editor's glyph names of the characters, in order, and every character is cached afterwards |
| `Plugin.PartitionNames` | TalkingLeaves.glyphsPlugin/Contents/Resources/TalkingLeaves.py:307-313 | the two name lists are the names of the characters whose glyph is in the font and of the rest, each in the original order |
| `Plugin.ResolveGlyphNames` | TalkingLeaves.glyphsPlugin/Contents/Resources/TalkingLeaves.py:315-316 | looking names up in an inverse that agrees with the editor gives back the characters behind them |
| `Plugin.TalkingLeaves.EvaluateOrthography` | TalkingLeaves.glyphsPlugin/Contents/Resources/TalkingLeaves.py:296-316 | the supported and unsupported characters are exactly the required characters in the font and not in it |
| `Coverage.OrthographyPartition` | TalkingLeaves.glyphsPlugin/Contents/Resources/TalkingLeaves.py:297-316 | every required character lands in exactly one of the two lists, by glyph-name membership, in order, and nothing is lost |
| `Coverage.RequiredCharsShape` | TalkingLeaves.glyphsPlugin/Contents/Resources/TalkingLeaves.py:297-305 | the required characters are the distinct base characters in increasing code-point order, then the marks as given |
| `Plugin.TalkingLeaves.EvaluateInto` | TalkingLeaves.glyphsPlugin/Contents/Resources/TalkingLeaves.py:296-343 | the rows, the marks and the counters after one orthography are one step of the pass |
| `Plugin.TalkingLeaves.EvaluateOrthos` | TalkingLeaves.glyphsPlugin/Contents/Resources/TalkingLeaves.py:292-343 | the loop over a language's orthographies of the script performs those steps in order |
| `Plugin.TalkingLeaves.EvaluateLanguage` | TalkingLeaves.glyphsPlugin/Contents/Resources/TalkingLeaves.py:278-343 | one language: skipped without orthographies, otherwise its orthographies of the script are counted and evaluated |
| `Plugin.TalkingLeaves.EvaluateAll` | TalkingLeaves.glyphsPlugin/Contents/Resources/TalkingLeaves.py:276-343 | the loop over the whole database leaves the state of the pass |
| `Plugin.TalkingLeaves.CollectRows` | TalkingLeaves.glyphsPlugin/Contents/Resources/TalkingLeaves.py:269-343 | after resetting the three counters, the rows, marks and counters are those of the pass from the session's marks |
| `Plugin.TalkingLeaves.GetLangsForScript` | TalkingLeaves.glyphsPlugin/Contents/Resources/TalkingLeaves.py:262-346 | returns the sorted rows of the pass and leaves its marks and counters in the fields; the script's count is replaced, no other script's changes |
| `Coverage.StepOrthoFacts` | TalkingLeaves.glyphsPlugin/Contents/Resources/TalkingLeaves.py:328-343 | one orthography raises exactly one of the two counters by one, appends at most one allowed row and adds its marks |
| `Coverage.FoldOrthosFacts` | TalkingLeaves.glyphsPlugin/Contents/Resources/TalkingLeaves.py:292-343 | over several orthographies the counters grow by their number, and rows are only appended |
| `Coverage.StepLangFacts` | TalkingLeaves.glyphsPlugin/Contents/Resources/TalkingLeaves.py:281-343 | one language adds its number of orthographies of the script to the total and the same to the two counters together |
| `Coverage.PassFacts` | TalkingLeaves.glyphsPlugin/Contents/Resources/TalkingLeaves.py:272-343 | after a pass, the total is the number of orthographies of the script, supported plus unsupported equals it, the rows are those the check boxes allow, and the marks are the old ones plus the script's |
| `Coverage.PassCounts` | TalkingLeaves.glyphsPlugin/Contents/Resources/TalkingLeaves.py:272-331 | supported plus unsupported equals `scriptsLangCount[script]` after a pass |
| `Coverage.PassVisibility` | TalkingLeaves.glyphsPlugin/Contents/Resources/TalkingLeaves.py:333-343 | a row appears only if its check box is on; the number of rows is what the check boxes let through; with both off there are no rows, while the counters still count |
| `Coverage.PassMarks` | TalkingLeaves.glyphsPlugin/Contents/Resources/TalkingLeaves.py:319 | a pass adds the marks of every orthography of the script to the session's marks, in order |
| `Coverage.PassRows` | TalkingLeaves.glyphsPlugin/Contents/Resources/TalkingLeaves.py:285-343 | every row of a pass is the row of one orthography of the script of one of the languages; its Missing Chars and Supported cells display that orthography's unsupported and supported characters given some marks |
| `Coverage.SplitCharsSpaceFree` | TalkingLeaves.glyphsPlugin/Contents/Resources/TalkingLeaves.py:296-316 | the supported and unsupported characters of an orthography come from its base characters and marks, so they hold no whitespace when those hold none |
| `Coverage.LangsForScriptOrder` | TalkingLeaves.glyphsPlugin/Contents/Resources/TalkingLeaves.py:344 | the result is ascending by Missing Chars string length, a permutation of the rows, and rows of equal length keep their order |
| `Coverage.StripDisplay` | TalkingLeaves.glyphsPlugin/Contents/Resources/TalkingLeaves.py:320-326 | a character is shown with the dotted circle exactly when it is a seen mark, and stripping undoes it |
| `Coverage.SplitStripDisplay` | TalkingLeaves.glyphsPlugin/Contents/Resources/TalkingLeaves.py:341-342 | splitting a cell gives back its display tokens, and stripping them gives the characters behind the cell |
| `Coverage.JoinLengthOfSingles` | TalkingLeaves.glyphsPlugin/Contents/Resources/TalkingLeaves.py:344 | for one-character tokens the sort key is twice the count minus one, so it orders rows like the count |
| `Coverage.FoldOrthosSameMarks` | TalkingLeaves.glyphsPlugin/Contents/Resources/TalkingLeaves.py:319-326 | evaluating orthographies from two mark lists with the same members gives the same rows and counters |
| `Coverage.PassSameMarks` | TalkingLeaves.glyphsPlugin/Contents/Resources/TalkingLeaves.py:319-326 | a pass depends on the session's marks only through which characters they contain |
| `Coverage.RepeatAfterMarksSeen` | TalkingLeaves.glyphsPlugin/Contents/Resources/TalkingLeaves.py:319-326 | once every mark of the script has been seen, another call returns the same rows and counters |
| `Coverage.MarksSeenAfterPass` | TalkingLeaves.glyphsPlugin/Contents/Resources/TalkingLeaves.py:319 | after one pass every mark of the script has been seen |
| `CoverageExamples.Scenario` | TalkingLeaves.glyphsPlugin/Contents/Resources/TalkingLeaves.py:262-346 | two Latin orthographies needing {a,b,c} and {a,d}, with a font holding a and b: unsupported {c} and {d}, supported {a,b} and {a}; total 2, complete 0, incomplete 2 |
| `CoverageExamples.ScenarioPartition` | TalkingLeaves.glyphsPlugin/Contents/Resources/TalkingLeaves.py:307-316 | the per-orthography split of that scenario |
| `CoverageExamples.ScenarioStep` | TalkingLeaves.glyphsPlugin/Contents/Resources/TalkingLeaves.py:289-331 | a language with one incomplete orthography of the script adds one to the total and to the incomplete count |
| `CoverageExamples.PartitionAB` | TalkingLeaves.glyphsPlugin/Contents/Resources/TalkingLeaves.py:309-313 | the font's glyph names split "abc" into "ab" and "c", and "ad" into "a" and "d" |
| `CoverageExamples.SortedSetABC` | TalkingLeaves.glyphsPlugin/Contents/Resources/TalkingLeaves.py:297 | `sorted(set(...))` of the scenario's base characters |
| `CoverageExamples.NoFontStep` | TalkingLeaves.glyphsPlugin/Contents/Resources/TalkingLeaves.py:285-343 | with no glyph in the font, a language with one orthography of the script gives one incomplete row holding all its characters |
| `CoverageExamples.TwoPasses` | TalkingLeaves.glyphsPlugin/Contents/Resources/TalkingLeaves.py:276-343 | the exact state a pass over two languages leaves, for any starting marks |
| `CoverageExamples.FirstCallDiffers` | TalkingLeaves.glyphsPlugin/Contents/Resources/TalkingLeaves.py:319-326 | a character that is a mark of a later language shows bare in the first call and with the dotted circle in the second, so the two calls return different rows |
| `CoverageExamples.SortedByLengthNotCount` | TalkingLeaves.glyphsPlugin/Contents/Resources/TalkingLeaves.py:344 | a row missing four characters sorts before a row missing three marks, because the key is the string length |
| `Catalogue.AddOrtho` | TalkingLeaves.glyphsPlugin/Contents/Resources/TalkingLeaves.py:369-372 | adding one orthography keeps the scripts list and the speakers dictionary in step |
| `Catalogue.TallyLangs` | TalkingLeaves.glyphsPlugin/Contents/Resources/TalkingLeaves.py:364-372 | the scripts list holds each script once, and its scripts are exactly the dictionary's keys |
| `Catalogue.AddOrthoFacts` | TalkingLeaves.glyphsPlugin/Contents/Resources/TalkingLeaves.py:369-372 | one orthography adds its script if new, and adds the language's speakers to that script alone |
| `Catalogue.TallyOrthosFacts` | TalkingLeaves.glyphsPlugin/Contents/Resources/TalkingLeaves.py:367-372 | one language adds its speakers once per orthography to each of its scripts |
| `Catalogue.TallyFacts` | TalkingLeaves.glyphsPlugin/Contents/Resources/TalkingLeaves.py:364-372 | the dictionary's keys are the scripts that have an orthography, each holding its speaker sum |
| `Catalogue.OrthoSpeakersCount` | TalkingLeaves.glyphsPlugin/Contents/Resources/TalkingLeaves.py:368-372 | a language's speakers count once per orthography in the script |
| `Catalogue.SpeakerSumUnused` | TalkingLeaves.glyphsPlugin/Contents/Resources/TalkingLeaves.py:366-372 | a script without orthographies has no speakers |
| `Catalogue.TallyPrefix` | TalkingLeaves.glyphsPlugin/Contents/Resources/TalkingLeaves.py:366-371 | scripts are only appended, so they appear in order of first appearance |
| `Catalogue.PairsDistinct` | TalkingLeaves.glyphsPlugin/Contents/Resources/TalkingLeaves.py:373 | the dictionary's items name each script once |
| `Catalogue.PermutedPairs` | TalkingLeaves.glyphsPlugin/Contents/Resources/TalkingLeaves.py:373 | any reordering of the items still names each script once with its own total |
| `Catalogue.ScriptsAndSpeakersOrder` | TalkingLeaves.glyphsPlugin/Contents/Resources/TalkingLeaves.py:373 | the returned entries are in non-increasing order of speakers |
| `Catalogue.ScriptsAndSpeakersStable` | TalkingLeaves.glyphsPlugin/Contents/Resources/TalkingLeaves.py:373 | scripts with equal totals keep their order of first appearance |
| `Catalogue.ScriptsAndSpeakersEntries` | TalkingLeaves.glyphsPlugin/Contents/Resources/TalkingLeaves.py:359-373 | each script with an orthography appears exactly once, holding the sum of its languages' speakers; no other script appears |
| `Plugin.TalkingLeaves.TallyScripts` | TalkingLeaves.glyphsPlugin/Contents/Resources/TalkingLeaves.py:364-372 | the nested loop builds the list and dictionary that the catalogue specifies |
| `Plugin.TalkingLeaves.GetScriptsAndSpeakers` | TalkingLeaves.glyphsPlugin/Contents/Resources/TalkingLeaves.py:359-373 | returns the catalogue's sorted entries |
| `Tables.RowDictFacts` | TalkingLeaves.glyphsPlugin/Contents/Resources/TalkingLeaves.py:383-385 | a row converts exactly when it is no longer than the column list (otherwise IndexError); its keys are the first identifiers, each holding its column's value |
| `Tables.TableFacts` | TalkingLeaves.glyphsPlugin/Contents/Resources/TalkingLeaves.py:381-386 | the table converts exactly when every row does, one dictionary per row in order |
| `Plugin.TalkingLeaves.TableFrom2dArray` | TalkingLeaves.glyphsPlugin/Contents/Resources/TalkingLeaves.py:375-386 | the loop builds the table that `Tables.Table` specifies |
| `Cells.SpeakersCellOfRow` | TalkingLeaves.glyphsPlugin/Contents/Resources/TalkingLeaves.py:452-461 | the speakers cell reads "(no data)" exactly when the database has no count, or None, 0 or -1; otherwise it shows the count |
| `Cells.StatusCellOfRow` | TalkingLeaves.glyphsPlugin/Contents/Resources/TalkingLeaves.py:463-471 | the status cell shows "living" for an absent status, "(no data)" for an empty one, and otherwise the status |
| `Cells.MissingCellOfList` | TalkingLeaves.glyphsPlugin/Contents/Resources/TalkingLeaves.py:473-481 | the Missing Chars cell reads "(complete)" for an empty list and the joined tokens otherwise |
| `Cells.DisplayNotComplete` | TalkingLeaves.glyphsPlugin/Contents/Resources/TalkingLeaves.py:473-481 | a non-empty list of display tokens never reads "(complete)" |
| `Cells.MissingCellOfRow` | TalkingLeaves.glyphsPlugin/Contents/Resources/TalkingLeaves.py:473-481 | in a row of the pass the cell reads "(complete)" exactly when nothing is missing |
| `Cells.FloorDiv` | TalkingLeaves.glyphsPlugin/Contents/Resources/TalkingLeaves.py:420 | Python's `//`: the quotient rounded towards minus infinity |
| `Cells.Percent` | TalkingLeaves.glyphsPlugin/Contents/Resources/TalkingLeaves.py:420 | the percentage fails with ZeroDivisionError exactly when the total is zero |
| `Cells.PercentBounds` | TalkingLeaves.glyphsPlugin/Contents/Resources/TalkingLeaves.py:420 | with `0 <= supported <= total` and a positive total, the percentage lies in 0..100 and is 100 only when everything is supported |
| `Cells.PassPercent` | TalkingLeaves.glyphsPlugin/Contents/Resources/TalkingLeaves.py:415-421 | after a pass, the percentage is defined exactly when the script has an orthography, and then lies in 0..100 |
| `Plugin.CataloguedScriptPercent` | TalkingLeaves.glyphsPlugin/Contents/Resources/TalkingLeaves.py:394-420 | for a script taken from the scripts table, the status-bar percentage is defined and lies in 0..100 |
| `Cells.CharListLessIsStrictWeak` | TalkingLeaves.glyphsPlugin/Contents/Resources/TalkingLeaves.py:793-797 | `charList.__lt__` compares token counts: irreflexive, asymmetric, transitive, and equal counts are interchangeable |
| `Exports.SelectedChars` | TalkingLeaves.glyphsPlugin/Contents/Resources/TalkingLeaves.py:669 | the selection is strictly increasing under Python's string order and holds exactly the (optionally stripped) tokens |
| `Exports.StrippedTokens` | TalkingLeaves.glyphsPlugin/Contents/Resources/TalkingLeaves.py:659-667 | for cells of display form (each displays whitespace-free characters given some marks), stripping the tokens gives exactly the characters behind them, in order |
| `Exports.SelectedOfDisplayed` | TalkingLeaves.glyphsPlugin/Contents/Resources/TalkingLeaves.py:659-669 | for cells of display form, the stripped selection holds exactly the characters behind the cells, each as one character |
| `Plugin.CollectSelected` | TalkingLeaves.glyphsPlugin/Contents/Resources/TalkingLeaves.py:660-669 | the split loop, the in-place strip loop and `sorted(list(set(...)))` give the specified selection |
| `Plugin.TalkingLeaves.GetSelectedMissingChars` | TalkingLeaves.glyphsPlugin/Contents/Resources/TalkingLeaves.py:659-669 | the selection from the selected rows' Missing Chars cells |
| `Plugin.TalkingLeaves.GetSelectedSupportedChars` | TalkingLeaves.glyphsPlugin/Contents/Resources/TalkingLeaves.py:671-681 | the selection from the selected rows' Supported cells |
| `Exports.SpaceSeparatedRoundTrip` | TalkingLeaves.glyphsPlugin/Contents/Resources/TalkingLeaves.py:683-686 | the space-separated copy splits back into the selection |
| `Exports.OnePerLineRoundTrip` | TalkingLeaves.glyphsPlugin/Contents/Resources/TalkingLeaves.py:688-689 | the one-per-line copy splits back into the selection |
| `Exports.PythonListOfNothing` | TalkingLeaves.glyphsPlugin/Contents/Resources/TalkingLeaves.py:691-694 | the Python-list copy of an empty selection is `[""]`, and of one character `["a"]` |
| `Exports.Ord` | TalkingLeaves.glyphsPlugin/Contents/Resources/TalkingLeaves.py:698 | `ord` succeeds exactly on one-character strings |
| `Exports.RenderRoundTrip` | TalkingLeaves.glyphsPlugin/Contents/Resources/TalkingLeaves.py:696-709 | each of the three renderings is one word that reads back to its code point |
| `Exports.CodepointLinesDefined` | TalkingLeaves.glyphsPlugin/Contents/Resources/TalkingLeaves.py:696-709 | a codepoint copy succeeds exactly when every token is one character, and otherwise raises TypeError |
| `Exports.CodepointLinesValues` | TalkingLeaves.glyphsPlugin/Contents/Resources/TalkingLeaves.py:698-708 | when it succeeds there is one line per token, the rendering of its code point |
| `Exports.CopyCodepointsRoundTrip` | TalkingLeaves.glyphsPlugin/Contents/Resources/TalkingLeaves.py:696-709 | splitting the copied text gives one line per character, each reading back to its code point |
| `Exports.SinglesIncreasing` | TalkingLeaves.glyphsPlugin/Contents/Resources/TalkingLeaves.py:669 | on one-character strings the sorted selection is in increasing code-point order |
| `Exports.CodepointsOfDisplayed` | TalkingLeaves.glyphsPlugin/Contents/Resources/TalkingLeaves.py:696-709 | for cells of display form, the codepoint copy of the stripped selection never fails, and its lines read back to strictly increasing code points |
| `Plugin.SelectionDisplays` | TalkingLeaves.glyphsPlugin/Contents/Resources/TalkingLeaves.py:659-681 | the selected rows' Missing Chars or Supported cells, for rows built from a whitespace-free database, are of display form |
| `Plugin.SelectionCodepoints` | TalkingLeaves.glyphsPlugin/Contents/Resources/TalkingLeaves.py:696-709 | for rows picked from the languages table of a whitespace-free database, the codepoint copies never fail and give one line per missing character, reading back to its code point, in increasing order; the stripped Supported selection holds single characters |
| `NumFormat.DigitsRoundTrip` | TalkingLeaves.glyphsPlugin/Contents/Resources/TalkingLeaves.py:703-708 | `str(n)` and `f"{n:0X}"` read back to `n` |
| `NumFormat.DigitsInjective` | TalkingLeaves.glyphsPlugin/Contents/Resources/TalkingLeaves.py:703-708 | different numbers get different renderings |
| `NumFormat.DigitsAreWord` | TalkingLeaves.glyphsPlugin/Contents/Resources/TalkingLeaves.py:703-708 | a rendering is never empty and holds no whitespace |
| `NumFormat.ZeroPad` | TalkingLeaves.glyphsPlugin/Contents/Resources/TalkingLeaves.py:698 | padding to width 4 keeps the digits at the end and puts only zeros before them |
| `NumFormat.ValueOfLeadingZeros` | TalkingLeaves.glyphsPlugin/Contents/Resources/TalkingLeaves.py:698 | leading zeros do not change the value read back |
| `NumFormat.UnicodeNotationRoundTrip` | TalkingLeaves.glyphsPlugin/Contents/Resources/TalkingLeaves.py:698 | `U+{n:04X}` is at least six characters and reads back to `n` |
| `NumFormat.UnicodeNotationIsWord` | TalkingLeaves.glyphsPlugin/Contents/Resources/TalkingLeaves.py:698 | `U+{n:04X}` is one word |
| `PyText.Split` | TalkingLeaves.glyphsPlugin/Contents/Resources/TalkingLeaves.py:662 | `str.split()` gives only non-empty words free of whitespace |
| `PyText.SplitJoin` | TalkingLeaves.glyphsPlugin/Contents/Resources/TalkingLeaves.py:662 | joining words with one whitespace character and splitting gives the words back |
| `PyText.SplitTrailingSpace` | TalkingLeaves.glyphsPlugin/Contents/Resources/TalkingLeaves.py:689 | a trailing whitespace character adds no word |
| `PySort.SelectMembers` | TalkingLeaves.glyphsPlugin/Contents/Resources/TalkingLeaves.py:309-313 | a filter keeps exactly the elements that pass the test |
| `PySort.SelectPartition` | TalkingLeaves.glyphsPlugin/Contents/Resources/TalkingLeaves.py:309-313 | splitting by a test sends each element to exactly one side, keeping the order on both |
| `PySort.SelectCounts` | TalkingLeaves.glyphsPlugin/Contents/Resources/TalkingLeaves.py:309-313 | the two sides together hold exactly the elements of the input |
| `PySort.InsertByKeyPermutes` | TalkingLeaves.glyphsPlugin/Contents/Resources/TalkingLeaves.py:344 | one insertion step of the sort adds the element and loses nothing |
| `PySort.InsertByKeySorted` | TalkingLeaves.glyphsPlugin/Contents/Resources/TalkingLeaves.py:344 | one insertion step keeps the list ordered by key |
| `PySort.SortByKeyPermutes` | TalkingLeaves.glyphsPlugin/Contents/Resources/TalkingLeaves.py:344 | `sorted(key=...)` returns a permutation of its input |
| `PySort.SortByKeySorted` | TalkingLeaves.glyphsPlugin/Contents/Resources/TalkingLeaves.py:344 | `sorted(key=...)` returns a list ascending by key |
| `PySort.SortByKeyStable` | TalkingLeaves.glyphsPlugin/Contents/Resources/TalkingLeaves.py:344 | `sorted(key=...)` is stable: the elements with any one key keep their input order |
| `PySort.SelectInsertByKey` | TalkingLeaves.glyphsPlugin/Contents/Resources/TalkingLeaves.py:344 | an insertion step places the new element after all earlier elements with its key |
| `PySort.InsertUnique` | TalkingLeaves.glyphsPlugin/Contents/Resources/TalkingLeaves.py:297 | adding an element to a strictly sorted list keeps it strictly sorted, and adds exactly that element |
| `PySort.SortedSet` | TalkingLeaves.glyphsPlugin/Contents/Resources/TalkingLeaves.py:297 | `sorted(set(s))` is strictly increasing and holds exactly the elements of `s` |
| `PySort.StrictlySortedDistinct` | TalkingLeaves.glyphsPlugin/Contents/Resources/TalkingLeaves.py:669 | a strictly sorted list holds no element twice |
| `PySort.StrLessIsStrictTotal` | TalkingLeaves.glyphsPlugin/Contents/Resources/TalkingLeaves.py:669 | Python's string order is a strict total order |
| `PySort.StrLtSingle` | TalkingLeaves.glyphsPlugin/Contents/Resources/TalkingLeaves.py:669 | on one-character strings Python's string order is the code-point order |

## Left out

- The window and its callbacks (`startGUI`, `fillTables`, the menus, `langsFormatting`, `refreshLangs`, `windowBecameKey`): user interface.
- Pasteboard writes, CSV row copying and opening the browser: I/O. The model gives only the strings the copy actions would put on the pasteboard.
- `checkForHyperglotUpdates`: a network fetch with JSON parsing.
- `addGlyphsCallback`, `langsSelectSupportedInFontView`, `langsOpenSupportedInNewTab`: they change the font through editor objects that are not part of this model.
- Hyperglot itself: the database is a given sequence of records, and each orthography carries its `base_chars` and `base_marks` as given.
- Import and start-up code (`main`, path set-up, version checks).
- The text of the status bar and its count of selected characters (lines 410-413, 415-428): only the percentage of line 420 is modelled.
- The unused `charset` of line 269.
- The font's glyph names are a list in the code (line 270) and a set in the model; only membership is used.
- The row's speakers come from the raw YAML dictionary (line 338) and the catalogue's from the parsed database (line 372). The model uses one speaker field for both.
- An orthography without a 'script' key raises KeyError at line 286. The model's records always have a script.
- The editor's `glyphInfoForUnicode` is a total function here. A lookup that returns no info, so that `.name` fails, is not modelled.
- Plugin.TalkingLeaves.constructor: requires that the editor gives distinct characters distinct glyph names. The code relies on this silently for the inverse map of line 356; with shared names, that map would send a name back to the last character asked about.
- Plugin.TalkingLeaves.QueryNames: does not state the order of questions to the editor. The ghost log `hostQueries` is not part of the class invariant. Only `GlyphInfoForChar` states that the editor is asked at most once per call, and only on a cache miss.
- Plugin.TalkingLeaves.EvaluateOrthography: states only the characters computed, not the questions to the editor, for the same reason.
- PyText.LStrip: states only bounds on its result. Its exact behaviour is its definition, used through `PyText.SplitJoin`.
- PyText.Word: states only bounds and that its result is free of whitespace, for the same reason.
- Plugin.SelectionCodepoints: assumes that no base character or mark in the database is Python whitespace (`DatabaseSpaceFree`). `.split()` at lines 662 and 674 would swallow such a character, and the selection would then not list it.
- Python strings may hold lone surrogate code points; Dafny's `char` cannot. The model covers the scalar values only.
