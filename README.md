# Log Selector: auto-fill and the daily HTML log

The Log Selector (`main.py`) is a small tkinter form for support staff. An operator picks
"Single logs" or "Multiple logs", fills in Reference Number, Main Issue, Action Taken, the
computer's details and, in multiple mode, PC# and Role, and presses Save. Save checks the
required fields in a fixed order and appends an HTML entry to one file per day,
`MM-DD-YYYY_SCTASK_Daily_close.html`. An inventory spreadsheet can be loaded with "Insert DC
Records". Leaving the Computer Name entry then looks the stripped name up in that table and
fills in model, serial number, OEM and OS. When several rows match, a popup asks which row to use.

This project models that behaviour in Dafny and proves what it does:

- `text.dfy` (module `Text`) holds the Python string operations the program uses:
  - `str.strip()` over the `str.isspace` characters;
  - `rsplit(sep, 1)[0]`;
  - `replace('\n', '<br>')`;
  - substring search.
- `inventory.dfy` (module `Inventory`) holds the table rows and the exact, case-sensitive match in row order. It also holds the popup's
  option strings and `options.index`.
- `form.dfy` (module `Form`) holds:
  - the ten widgets and the two modes;
  - the `data` dictionary Save reads;
  - the Main Issue / Action Taken / all-fields check.
- `autofill.dfy` (module `Autofill`) holds the outcome of auto-fill for every lookup result and every way of leaving
  the popup.
- `html_log.dfy` (module `HtmlLog`) holds:
  - the entry fragment, the header and the merge into the old file;
  - the daily file name;
  - what repeated saves make of the file.
- `app.dfy` (module `LogApp`) holds:
  - the timestamp and the outcome of Save;
  - the window as a class `LogSelectorApp`, with fields `selection`, `fields` and `excelData`, and methods for the
    radio buttons, "Insert DC Records", auto-fill, Clear, the "add more?" question and Save.
- `scenarios.dfy` (module `AutofillScenarios`) holds two small inventories worked through: one popup that tells its rows apart and one that does not.
- `wrappers.dfy` holds `Option`.

The clock, the file system and the dialogs are parameters:

- Save receives the day's file as `Option<string>`, `None` when it does not exist.
- The two readings of `datetime.now()` arrive as `today` for the file name and `stamped` for the entry's
  timestamp, because the program reads the clock twice.
- The answer to "Do you want to add more?" arrives as a `bool`.
- The popup arrives as `choice: Option<nat>`: the index of the radio button selected when Select is pressed, or `None`
  when the popup is closed.
- The operator's typing into an entry, combo box or text box is `LogSelectorApp.Enter`.

Save does not strip only the final closing tags. It cuts the old file before its last `</body>`, and then before the
last `</html>` in what is left (main.py:243). The model follows that code. As a result, an entry whose text contains
`</html>` makes the next save drop everything from that tag on: `HtmlLog.AppendOntoClosed` gives the exact text, and
`HtmlLog.CloseTagInEntryTruncates` shows that it is shorter than the log with both entries. Entries free of
`</html>` are kept whole and in order (`HtmlLog.SavesInOrder`, `LogApp.SaveExtendsLog`).

## Model

| member | source | states |
|---|---|---|
| Text.Strip | main.py:151 | The stripped text neither starts nor ends with whitespace, and it is empty exactly when the input is all whitespace. |
| Text.StripUnique | main.py:151 | Whitespace around a core that neither starts nor ends with whitespace is removed exactly, leaving that core. |
| Text.StripSplits | main.py:151 | Every text is its leading whitespace, then its stripped form, then its trailing whitespace. |
| Text.StripIgnoresTrailingNewline | main.py:216 | The newline Tk appends to a text box's contents makes no difference once stripped. |
| Text.LastIndexOf | main.py:243 | Python's `rfind`: the returned position holds the pattern and none after it does; `None` exactly when the pattern is absent. |
| Text.BeforeLast | main.py:243 | `rsplit(p, 1)[0]`: a prefix that ends right where the last occurrence of `p` starts, or the whole text when `p` is absent. |
| Text.ReplaceNewlines | main.py:261-262 | No newline is left, and a text without newlines is unchanged. |
| Text.ReplaceNewlinesConcat | main.py:261-262 | The replacement distributes over concatenation. |
| Text.ReplaceNewlinesChar | main.py:261-262 | A newline becomes `<br>`, and any other character stays as it is. |
| Text.RenderingKeepsOut | main.py:261-262 | Turning newlines into `<br>` never creates a closing tag such as `</html>` that was not there. |
| Text.StripKeepsOut | main.py:216 | Stripping never creates a pattern that was not there. |
| Inventory.MatchPositions | main.py:155 | The mask `excel_data['Computer Name'] == name`: ascending row numbers, every one a match, and every matching row included. |
| Inventory.Matches | main.py:155 | As many rows as matching positions, each with exactly the looked-up name; `MatchesAt` fixes which rows they are. |
| Inventory.MatchesAt | main.py:155 | Match `i` is the table row at the `i`th matching position, so the matches are the matching rows in table order. |
| Inventory.MatchesAreTableRows | main.py:155 | Every match is a table row holding the key, and every table row holding the key is a match. |
| Inventory.OptionLabel | main.py:170 | A template with no contract of its own: `DuplicatesOpenPrompt` and `ResolveFirstEqual` state how the labels are used. |
| Inventory.OptionLabels | main.py:169-172 | The `options` list, one `OptionLabel` per candidate row, with no contract of its own: `PromptFor` and `DuplicatesOpenPrompt` state it. |
| Inventory.FirstIndex | main.py:179 | Python's `list.index`: a result exactly when the value is present, at the first position holding it. |
| Inventory.Lookup | main.py:148-158 | No candidates without a table, when the stripped name is empty, or when nothing matches. One candidate is the single matching row. Several candidates are all the matches, in table order. |
| Inventory.Resolve | main.py:178-180 | Select yields a row exactly when an option is selected, and that row is one of the candidates; `ResolveFirstEqual` fixes which one. |
| Inventory.PromptFor | main.py:169-173 | One option per candidate row, in order, each that row's label, with option 0 preselected. |
| Form.IsMultiLine | main.py:138-141 | The `isinstance(..., ScrolledText)` test, with no contract of its own: exactly Main Issue and Action Taken; `ReadValue` and `ReadBlank` state what it decides. |
| Form.RequiredFields | main.py:61-84 | The keys of `single_log_fields` (8) and `multiple_log_fields` (10), with no contract of its own: `ModeDecidesPcAndRole` states how they differ. |
| Form.Get | main.py:261-273 | `data.get(label, '')`, with no contract of its own: `FragmentIgnoresUnwritten` and `FragmentFree` state what the entry takes from it. |
| Form.ReadValue | main.py:216 | An entry or combo box is read as it is; a text box is read stripped. |
| Form.ReadData | main.py:213-218 | The `data` dictionary holds exactly the mode's fields, each with the value `ReadValue` reads from its widget. |
| Form.EmptyFields | main.py:228 | `empty_fields` lists exactly the fields of the order whose value is empty. |
| Form.Validate | main.py:220-231 | Main Issue is checked first, then Action Taken, then every field of the mode, each with its own warning. The result is accepted exactly when no field is empty. |
| Form.ModeDecidesPcAndRole | main.py:61-84 | Single mode ignores PC# and Role. Multiple mode accepts exactly what single mode accepts when PC# and Role are also filled. |
| Form.ReadBlank | main.py:216 | A value read by Save is empty exactly when its widget is blank: whitespace only for a text box, nothing for any other widget. |
| Form.ValidateFields | main.py:213-231 | Each warning and the acceptance, stated both ways in terms of the widgets the operator filled. |
| Autofill.Project | main.py:200-209 | Model, serial number, OEM and OS take the row's values; every other widget keeps its text. |
| Autofill.AppliedRow | main.py:146-209 | The row auto-fill applies, if any, with no contract of its own: `AppliedRowMatches` and the lemmas below fix it for each lookup outcome. |
| Autofill.AppliedRowMatches | main.py:155-209 | The applied row, if any, is a row of the table that holds the stripped name. |
| Autofill.AutofilledFields | main.py:146-209 | The form after auto-fill still has every widget. `NothingToFill`, `SingleMatchFills`, `ClosingPromptChangesNothing`, `SelectAppliesFirstEqualLabel` and `OnlyDetailsChange` state its value for each case. |
| Autofill.PromptShown | main.py:158-176 | A popup is shown exactly when two or more rows match. |
| Autofill.NothingToFill | main.py:148-157 | No table, a blank name or no matching row: no popup, and the form is unchanged. |
| Autofill.OnlyMatchingRow | main.py:155 | A name held by exactly one row matches exactly that row. |
| Autofill.UniqueLookup | main.py:151-158 | A stripped name held by exactly one row is a single candidate. |
| Autofill.SingleMatchFills | main.py:200-209 | A name exactly one row has fills the four details from that row, with no popup, whatever the choice. |
| Autofill.OnlyDetailsChange | main.py:183-190 | Auto-fill never changes Reference Number, Main Issue, Action Taken, PC#, Role or Computer Name. |
| Autofill.DuplicatesOpenPrompt | main.py:158-176 | With two or more matches, the popup has one option per matching row, labelled from that row, in table order, with the first preselected. |
| Autofill.ClosingPromptChangesNothing | main.py:194-199 | Closing the popup without Select leaves the form unchanged. |
| Autofill.ResolveFirstEqual | main.py:178-180 | Select applies the earliest row whose option text equals the selected option's text. |
| Autofill.SelectAppliesFirstEqualLabel | main.py:178-190 | Selecting option `i` fills the form from the first row labelled like row `i`, which need not be row `i`. |
| Autofill.DistinctLabelsSelectChosenRow | main.py:178-190 | When all options read differently, Select fills the form from exactly the selected row. |
| Autofill.ProjectTwice | main.py:183-190 | Writing the same row's details twice is the same as writing them once. |
| Autofill.RowAppliedTwice | main.py:146-209 | After a row is applied, the lookup still finds it, and applying it again changes nothing. |
| Autofill.AutofillIdempotent | main.py:146-209 | Leaving the entry a second time, with the popup answered the same way, changes nothing more. |
| AutofillScenarios.PaddedNameStrips | main.py:151 | `" PC1\n"` is looked up as `PC1`. |
| AutofillScenarios.TwoRowsMatch | main.py:155 | Two rows with the name both match it, in table order. |
| AutofillScenarios.TwoRowsPrompt | main.py:158-176 | Two rows with the name are both candidates, and the popup lists both labels with the first preselected. |
| AutofillScenarios.SecondOfTwo | main.py:178-190 | With two candidates whose labels differ, selecting the second fills the form from the second row. |
| AutofillScenarios.SecondOptionFillsSecondRow | main.py:169-190 | On a two-row inventory for `PC1`, the popup shows both labels, and selecting the second fills in the HP row. |
| AutofillScenarios.IdenticalOptionsApplyFirstRow | main.py:169-190 | Two `PC2` rows with the same label: selecting the second option still fills in the first row's OEM and OS. |
| HtmlLog.StripClosing | main.py:243 | What is kept of the old file is a prefix of it. |
| HtmlLog.Kept | main.py:239-245 | With a file, its `StripClosing` (a prefix of it) is kept; without one, the header is used. |
| HtmlLog.Assemble | main.py:247-249 | The written text is the kept text, then the entry, then `<hr>`, then `</body></html>`, each at its place and nothing else. |
| HtmlLog.AppendEntry | main.py:239-249 | Composition with no contract of its own: `Kept` and `Assemble` state its parts, and `AppendOntoIntact`, `AppendToDocument` and `CloseTagInEntryTruncates` state its effect. |
| HtmlLog.Header | main.py:278-292 | The header template, with no contract of its own: `HeaderFree` states that it holds no `</html>`, and `FirstSave` states where it goes. |
| HtmlLog.Fragment | main.py:258-276 | The entry template, with no contract of its own: `FragmentIgnoresUnwritten`, `FragmentFree` and `TypedCloseTagIsWritten` state what it writes. |
| HtmlLog.FragmentIgnoresUnwritten | main.py:264-275 | Reference Number, PC# and Role are not written: the entry is the same whatever they hold. |
| HtmlLog.DailyFileName | main.py:233-234 | Ten characters `MM-DD-YYYY` of digits and dashes, then `_SCTASK_Daily_close.html`. |
| HtmlLog.FileNameRoundTrip | main.py:233-234 | The date can be read back from the file name. |
| HtmlLog.FileNamePerDay | main.py:233-234 | Two dates share a file exactly when they are the same date. |
| HtmlLog.HeaderFree | main.py:278-292 | The header contains no `</html>`. |
| HtmlLog.FragmentFree | main.py:258-276 | An entry contains `</html>` only if the timestamp or one of the seven written values does. |
| HtmlLog.TypedCloseTagIsWritten | main.py:269 | A `</html>` typed into Computer Name is written into the entry as it is (nothing is escaped). |
| HtmlLog.BodyFree | main.py:278-292 | A log whose entries hold no `</html>` has none in its body. |
| HtmlLog.StripClosingOf | main.py:243-249 | The closing tags a save writes are exactly what the next save strips as `</body>`. |
| HtmlLog.AppendOntoIntact | main.py:239-252 | A file whose body has no `</html>` keeps its body whole, as a prefix, followed by the new entry. |
| HtmlLog.AppendOntoClosed | main.py:239-249 | A save onto any file these saves closed writes the old body up to its last `</html>`, then the new entry, `<hr>` and the closing tags. |
| HtmlLog.AppendToDocument | main.py:239-252 | Saving into a log whose body has no `</html>` gives the log with the new entry last. The old text, up to its closing tags, is a prefix of the new text. |
| HtmlLog.FirstSave | main.py:244-249 | The first save of the day writes the header, the entry, `<hr>` and the closing tags. |
| HtmlLog.NextSave | main.py:239-249 | A save onto an intact log whose body has no `</html>` leaves an intact log with one more entry. |
| HtmlLog.FileAfterStep | main.py:239-252 | Each save applies the merge to the file that the earlier saves left. |
| HtmlLog.SavesInOrder | main.py:237-252 | Any number of saves of entries without `</html>` give the log of all of them, in the order saved. |
| HtmlLog.EntryPosition | main.py:247 | Entry `i` stands whole, with its `<hr>`, right after the entries saved before it. |
| HtmlLog.CloseTagInEntryTruncates | main.py:243 | Once an entry contains `</html>`, the next save comes out shorter than the log with both entries: earlier text is lost. |
| HtmlLog.EntriesSavedInOrder | main.py:237-276 | Entries none of whose written values contain `</html>` are all logged, in order. |
| LogApp.TimeStamp | main.py:260 | `%Y-%m-%d %H:%M:%S`: 19 characters with `-`, ` ` and `:` in their places; `TimeStampReads` fixes the digits. |
| LogApp.StampLayout | main.py:260 | Where each padded number sits in the timestamp. |
| LogApp.TimeStampReads | main.py:260 | The digits of the timestamp read back as the moment's year, month, day, hour, minute and second. |
| LogApp.TimeStampPerMoment | main.py:260 | Two moments give the same timestamp exactly when they are the same moment. |
| LogApp.TimeStampFree | main.py:260 | A timestamp never contains `</html>`. |
| LogApp.Save | main.py:211-252 | The outcome of Save, with no contract of its own: `SaveWarned`, `SaveWritten`, `SaveWarnings`, `WarningIgnoresFile` and `SaveExtendsLog` state it. |
| LogApp.Conclude | main.py:220-252 | The dispatch on the verdict, with no contract of its own: `ConcludeFollowsVerdict` states it. |
| LogApp.ConcludeFollowsVerdict | main.py:220-252 | Save warns with a message exactly when the checks reject with it, and writes exactly when they accept. |
| LogApp.SaveWarned | main.py:220-231 | A failed check ends Save with that check's warning. |
| LogApp.SaveWritten | main.py:233-252 | A passed check writes the day's file with the old log merged with the new entry. |
| LogApp.SaveWarnings | main.py:213-231 | Each of the three warnings, and the write, stated both ways in terms of what the operator typed, in priority order. |
| LogApp.WarningIgnoresFile | main.py:220-239 | A save that warns is the same whatever file is on disk, so the file is neither read nor written. |
| LogApp.SaveExtendsLog | main.py:233-252 | Saving into a log of entries without `</html>` writes, to the file named for the day, that log with the new entry last. |
| LogApp.SavedEntryFree | main.py:215-218 | The written entry contains `</html>` only if the operator typed it into a field of the mode. |
| LogApp.CheckRequired | main.py:220-231 | The three checks, each returning at once, agree with `Form.Validate`. |
| LogApp.MergeIntoFile | main.py:239-249 | Building `existing_content` with `+=` gives the merge, and it keeps what was kept of the old file as a prefix. |
| LogApp.WriteEntry | main.py:233-252 | The accepted save writes the file named for `today`, holding the merge with the entry stamped `stamped`. |
| LogApp.SelectRow | main.py:178-180 | The popup's Select: the row at `options.index(selected option)`, or none when the popup is closed. |
| LogApp.LogSelectorApp.constructor | main.py:15-26 | A new window is in single mode, with every widget empty and no table. |
| LogApp.LogSelectorApp.Enter | main.py:85-106 | The operator typing into one of the editable widgets these lines create: that widget's text is replaced, and nothing else changes. |
| LogApp.LogSelectorApp.SelectMode | main.py:122-134 | Choosing a radio button changes the mode only; widget contents and the table stay. |
| LogApp.LogSelectorApp.LoadExcelData | main.py:316-324 | A loaded table replaces the old one; a cancelled dialog or a failed read keeps the old one. |
| LogApp.LogSelectorApp.ApplyRow | main.py:183-190 | The four details take the row's values; nothing else changes. |
| LogApp.LogSelectorApp.AutofillFields | main.py:146-209 | The popup shown is `PromptShown`, and the new form is `AutofilledFields` of the old one; the mode and the table stay. |
| LogApp.LogSelectorApp.ClearFields | main.py:136-141 | Every widget is emptied; the mode and the table stay. |
| LogApp.LogSelectorApp.AskAddMore | main.py:294-299 | The form is cleared whichever answer is given. |
| LogApp.LogSelectorApp.SaveToHtml | main.py:211-256 | The outcome is `Save` of the widgets. A warning leaves the form as it was; a written file is followed by a cleared form. |

## Left out

- Widget creation, layout, fonts and which widgets are shown (main.py:28-135, 143-144). These are layout only.
  `SelectMode` models the radio buttons as a change of mode that leaves widget contents alone.
- Message boxes, the popup window and its modal wait (main.py:160-199). They become returned values: warnings in
  `SaveOutcome`, the prompt returned by `AutofillFields`, and the `choice` argument.
- `LogApp.SelectRow`: a `choice` outside the option list is treated as no selection. The popup cannot produce one.
- `pd.read_excel` and the file dialog (main.py:316-324). The table is a given `seq<Record>` of string cells, so
  pandas behaviour is not modelled: `nan` for empty cells, `KeyError` for missing columns, and the dtypes of
  numeric columns.
- The file system (main.py:235-252). The day's file comes in as `Option<string>` and the written text comes out in
  `SaveOutcome`. The model assumes the next save reads back exactly the text the last one wrote. Both `open` calls
  use universal newlines (main.py:240, 251), so a `\r` typed into a field is read back as `\n`; such an entry no
  longer matches what `HtmlLog.SavesInOrder` says the file holds. The output folder (main.py:309-314) is not modelled, and neither is opening it (main.py:301-307).
- I/O errors are not modelled. An `open`, `read` or `write` that raises (main.py:240-241, 251-252) ends Save with
  the form not cleared. A `write` that fails after `open(filepath, "w")` leaves the day's file empty, which
  `HtmlLog.SavesInOrder` does not cover.
- `datetime.now()` (main.py:233, 260). The date and the moment are parameters, and years are limited to
  1..9999 as `datetime` allows. `HtmlLog.ValidDate` takes any day 1..31 without checking it against the month,
  so it admits dates such as 31 February that `datetime` never produces.
- HtmlLog.DailyFileName and LogApp.TimeStamp write the year zero-padded to four digits. That matches `%Y` for
  years 1000..9999. Below 1000 the C library decides, and glibc writes the year without padding (`999`).
- The `print` after a save (main.py:254).
- Concurrency: none exists; the file is written in one `open(..., "w")`.
- Text encodings. Strings are sequences of Unicode characters, and whitespace is Python's `isspace` set.
- `HtmlLog.StripClosing`: what it keeps is stated exactly only for files that these saves wrote and whose entries
  contain no `</html>` (`HtmlLog.AppendOntoIntact`). For other files the contract states only that a prefix is kept.
