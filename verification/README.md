# Transcript CSV builder and factor-analysis helpers, modelled in Dafny

This project models two helper modules of a research toolkit that turns
chat and audio transcripts into a CSV dataset and runs an exploratory factor
analysis (EFA) on it.

- **`construct_csv`** does several things:
  - lists the raw transcript files (`find_files`);
  - cleans their lines (`load_textfile`);
  - validates the group name and the output file name that the user types (`check_group`, `check_filename`);
  - writes the CSV (`create_csv`).

  `create_csv` writes the header `group,datatype,topic,name,timestamp,text`
  once. It then goes through every transcript line in file order and line order:
  - A `TOPIC:` line sets the running topic to the rest of the line, stripped, and writes nothing.
  - Any other line writes one row. The row holds the line's group, datatype and current topic. Next come the `[name,timestamp]` prefix (padded with commas to two cells, never cut down) and the quoted remaining text.
- **`efa_analysis`** contributes:
  - spreadsheet-style column letters (`base26`), used for the factor labels `Factor A`, `Factor B`, …;
  - the validators for the number of topics (`check_number`) and the result name (`check_filename`).

The Dafny modules are:

- **`PyText`**: the Python `str` operations the code relies on.
  These are `isspace`, `strip`, `lstrip`, `rstrip`, `startswith`, `endswith`, `count`, `split`, `join`, `s[::-1]`, `c * n` and `re.sub` of one character.
  `isspace`, `startswith` and `endswith` are predicates defined directly. `join` is characterised through `split`: joining the pieces of a split gives the string back, and splitting joined pieces gives them back. Every other operation carries a contract.
- **`Validation`**: the validator outcome and the shared name pattern `^[A-Za-z0-9_-]*$`.
  Python's `$` also matches before one final newline, and the model includes that.
- **`CsvReader`**: a small quote-aware CSV record reader. It is the reference against which written rows are read back.
- **`ConstructCsv`**: the CSV builder.
  - The open output file is the class `AppendFile`. Its `written` field is the sequence of chunks written so far.
  - `CreateCsv`, `WriteTranscript` and `WriteLine` are the nested loops of `create_csv`. Each is proved against the fold `Run`/`Step` over the tagged lines.
  - `WriteRow` is the innermost statements. It is proved to write exactly `Row`, the row that `Step` appends.
  - The lemmas then state what the fold produces: one row per data line, in order, under the topic of the last marker; the header first and only once; and rows that read back as the intended cells.
- **`EfaAnalysis`**: the column letters, the labels and the two validators.
  - The loop of `base26` is proved against the recursive `ToColumn`.
  - `ToColumn` is proved to be the inverse of `FromColumn`.

The code is followed where it differs from a plain reading of the program's intent:
- **Topic across files.** The topic is set to `""` once, before the first file. It is not reset per file, so a file without a marker inherits the previous file's topic (`LaterFileKeepsTopic`).
- **Text after the bracket.** The text after `]` loses all of its leading whitespace (`lstrip`), not exactly one character (`AnnotationOfPrefixed`).
- **Fields cell.** It is the bracket's contents padded with commas. A list with more than one comma is kept whole and gives more than six cells (`RowHasSixCells` states when there are exactly six).
- **Topic cell.** The topic is written without quotation marks. Each comma in a `TOPIC:` line's remainder adds a cell to every row written under it, in that file and in later ones (`TopicCommasAddCells`).
- **Quoting.** The text is wrapped in quotation marks without escaping. That is sound only because `load_textfile` removes every quotation mark (`CleanLinesAreClean`, `RowCells`).

## Model

| member | source | states |
|---|---|---|
| PyText.IsSpace | Functions/construct_csv.py:38 | the characters `str.isspace` accepts, which `strip`, `lstrip` and `rstrip` remove: space, `\t` to `\r`, `\x1c` to `\x1f`, and the Unicode spaces and separators |
| PyText.StartsWith | Functions/construct_csv.py:93 | `s.startswith(p)`: `p` is no longer than `s` and is its prefix |
| PyText.EndsWith | Functions/construct_csv.py:28 | `s.endswith(p)`: `p` is no longer than `s` and is its suffix, so every string ends with `""` |
| PyText.LStrip | Functions/construct_csv.py:99 | the result is the suffix left after a run of whitespace characters, and does not start with whitespace |
| PyText.RStrip | Functions/construct_csv.py:38 | the result is the prefix left before a run of whitespace characters, and does not end with whitespace |
| PyText.Strip | Functions/construct_csv.py:38 | the result is a slice of the input with only whitespace cut from each end, and neither starts nor ends with whitespace |
| PyText.RemoveChar | Functions/construct_csv.py:38 | no quotation mark is left, and every other character keeps its count |
| PyText.RemoveCharAppend | Functions/construct_csv.py:38 | removing a character distributes over concatenation, so the kept characters stay in order |
| PyText.Repeat | Functions/construct_csv.py:100 | `',' * n` has `n` commas, and none when `n` is zero or negative |
| PyText.Count | Functions/construct_csv.py:100 | `args.count(',')` is the multiplicity of `,`, zero exactly when there is none |
| PyText.AfterFirst | Functions/construct_csv.py:98 | `split('[', 1)[1]` is what follows the first `[` |
| PyText.BeforeFirst | Functions/construct_csv.py:98 | `split(']')[0]` is the longest prefix without `]`, which is followed by a `]` when there is one |
| PyText.Split | Functions/construct_csv.py:98 | there is one more piece than separators, no piece holds the separator, the first piece is the part before the first separator, and joining the pieces with the separator gives the string back |
| PyText.Join | Functions/construct_csv.py:101 | `sep.join(xs)`: the pieces in order with one separator between neighbours; `Split` and `SplitJoin` state that it is the inverse of `split` |
| PyText.SplitJoin | Functions/construct_csv.py:101 | splitting joined pieces that hold no separator gives the pieces back |
| PyText.JoinEnds | Functions/construct_csv.py:101 | a joined line starts with its first cell and ends with its last |
| PyText.Reverse | Functions/efa_analysis.py:195 | `a[::-1]` has the same length, with character `k` taken from the other end |
| Validation.NamePatternMatches | Functions/construct_csv.py:46 | `re.match(r'^[A-Za-z0-9_-]*$', s)`: every character is a name character, or all but a final newline are |
| Validation.NamePatternByChars | Functions/construct_csv.py:46 | the name pattern matches exactly when every character is a name character, except that the last may be a newline |
| ConstructCsv.FilesWithExtension | Functions/construct_csv.py:24-30 | a name is kept if and only if it is in the listing and ends with the extension, or the extension is `*` |
| ConstructCsv.FilesWithExtensionAppend | Functions/construct_csv.py:27-29 | filtering keeps listing order: two parts filter to their two filtered parts |
| ConstructCsv.FindFiles | Functions/construct_csv.py:24-30 | the loop returns exactly the filtered listing |
| ConstructCsv.CleanLine | Functions/construct_csv.py:38 | a non-empty cleaned line has no quotation mark and no whitespace at either end |
| ConstructCsv.CleanLines | Functions/construct_csv.py:37-40 | the lines of a file, each cleaned, with the empty ones dropped; never more lines than the file had |
| ConstructCsv.Kept | Functions/construct_csv.py:38-40 | one line contributes its cleaned form when that is not empty, and nothing otherwise; at most one line |
| ConstructCsv.CleanLinesAreClean | Functions/construct_csv.py:37-40 | every kept line is non-empty, quote-free and trimmed |
| ConstructCsv.CleanLinesAppend | Functions/construct_csv.py:37-40 | kept lines stay in file order |
| ConstructCsv.CleanLinesKeep | Functions/construct_csv.py:39-40 | every line that is not blank once cleaned is kept, cleaned |
| ConstructCsv.LoadTextfile | Functions/construct_csv.py:33-41 | the loop returns the cleaned, non-empty lines in order |
| ConstructCsv.CheckGroup | Functions/construct_csv.py:44-48 | valid if and only if every character is in `[A-Za-z0-9_-]` (one final newline allowed); otherwise the `contains invalid characters...` error |
| ConstructCsv.CheckFilename | Functions/construct_csv.py:66-73 | valid if and only if the name matches the pattern and `<name>.csv` is not in the output folder; the error for each case |
| ConstructCsv.BadNameIgnoresListing | Functions/construct_csv.py:68-72 | a bad name is rejected whatever the output folder holds |
| ConstructCsv.OnlyCsvNamesCollide | Functions/construct_csv.py:70-71 | files without the `.csv` extension never cause a collision |
| ConstructCsv.NameExamples | Functions/construct_csv.py:46 | the empty name, `team_1-b` and `team1` plus one newline pass; a space or two newlines fail |
| ConstructCsv.IsTopicLine | Functions/construct_csv.py:93 | a line is a marker when it starts with `TOPIC:` |
| ConstructCsv.TopicOf | Functions/construct_csv.py:93-94 | the topic is the stripped remainder after `TOPIC:`, not starting or ending with whitespace |
| ConstructCsv.Bracketed | Functions/construct_csv.py:97 | a line has a bracketed prefix when it starts with `[` and holds a `]` somewhere |
| ConstructCsv.SplitAnnotation | Functions/construct_csv.py:96-99 | for `[args]text`, `args` has no `]` and the line starts with `[args]`, and the text is the rest with its leading whitespace removed; any other line is all text |
| ConstructCsv.AnnotationOfPrefixed | Functions/construct_csv.py:97-99 | splitting `"[" + args + "]" + rest` gives back `args` and `rest` lstripped |
| ConstructCsv.UnclosedBracketExample | Functions/construct_csv.py:97 | a line with `[` but no `]` is all text |
| ConstructCsv.Fields | Functions/construct_csv.py:100 | a list with a comma is kept as it is; one without gets one comma; the cell then holds at least one separator |
| ConstructCsv.FieldsExamples | Functions/construct_csv.py:100 | `""` becomes `,`, `Ann` becomes `Ann,`, and `Ann,00:01,x` is unchanged |
| ConstructCsv.Row | Functions/construct_csv.py:96-102 | one data line's row: group, datatype, topic, the padded fields and the quoted text, joined by commas, then a newline; its properties are `RowEnding`, `RowCells` and `RowCellsSplitTopic` |
| ConstructCsv.RowEnding | Functions/construct_csv.py:101-102 | every data row ends in a closing quote and a newline |
| ConstructCsv.Tagged | Functions/construct_csv.py:89-92 | each line of a file is paired with that file's group and datatype, in order |
| ConstructCsv.Entries | Functions/construct_csv.py:89-92 | all lines of all files, tagged, in file order and then line order |
| ConstructCsv.EntriesAppend | Functions/construct_csv.py:89-92 | files given one after the other contribute their lines one after the other |
| ConstructCsv.Step | Functions/construct_csv.py:93-102 | a marker replaces the topic by its stripped remainder and writes nothing; any other line appends its `Row` under the current topic |
| ConstructCsv.Run | Functions/construct_csv.py:89-102 | the lines taken one after the other by `Step`; `RunSplit`, `RunRowCount`, `RunRowAt` and `TopicIsLastMarker` state what it produces |
| ConstructCsv.CsvText | Functions/construct_csv.py:86-102 | what `create_csv` writes: the header, then the run over all lines from the empty topic, set once before the first file |
| ConstructCsv.AppendFile.constructor | Functions/construct_csv.py:87 | the file opened for appending holds what it held before |
| ConstructCsv.AppendFile.Write | Functions/construct_csv.py:102 | a write appends its chunk |
| ConstructCsv.CreateCsv | Functions/construct_csv.py:84-102 | the file ends up holding its old contents followed by `CsvText(data)`: the header, then the fold over all lines with one running topic |
| ConstructCsv.WriteTranscript | Functions/construct_csv.py:92-102 | one file's lines are written as the fold from the topic the previous file left, and the topic for the next file is returned |
| ConstructCsv.WriteLine | Functions/construct_csv.py:93-102 | a marker sets the topic and writes nothing; any other line writes its row under the current topic |
| ConstructCsv.WriteRow | Functions/construct_csv.py:96-102 | the statements write exactly the row `Row` describes |
| ConstructCsv.RowByStatements | Functions/construct_csv.py:96-101 | the bracket statements compute the annotation, and the join computes the row |
| ConstructCsv.RunSplit | Functions/construct_csv.py:89-92 | two runs of lines one after the other: the second starts from the topic and rows the first left |
| ConstructCsv.RunAfterPrefix | Functions/construct_csv.py:87-88 | what the file held before stays in front and does not change what is written |
| ConstructCsv.RunRowCount | Functions/construct_csv.py:92-102 | a run only appends, exactly one row per non-marker line |
| ConstructCsv.RunRowAt | Functions/construct_csv.py:92-102 | the `k`-th line, when it is a data line, is written at the position of its count among data lines, under the topic in force before it |
| ConstructCsv.RowIndex | Functions/construct_csv.py:92-102 | every written row comes from some data line, so nothing else is written |
| ConstructCsv.TopicWithoutMarker | Functions/construct_csv.py:93-95 | without markers the topic does not change |
| ConstructCsv.TopicIsLastMarker | Functions/construct_csv.py:93-95 | after a run the topic is the stripped remainder of its last marker |
| ConstructCsv.LaterFileKeepsTopic | Functions/construct_csv.py:86-92 | a file added after others starts from the topic they left, not from `""` |
| ConstructCsv.TopicThenLine | Functions/construct_csv.py:86-102 | a marker followed by a data line gives the header and one row under the marker's topic |
| ConstructCsv.HeaderEnding | Functions/construct_csv.py:21 | the header ends with `text` and a newline |
| ConstructCsv.HeaderWrittenOnce | Functions/construct_csv.py:88-102 | the header is the first chunk written and no later chunk equals it |
| ConstructCsv.HeaderCells | Functions/construct_csv.py:19-21 | the header reads as `group,datatype,topic,name,timestamp,text` |
| ConstructCsv.RowCells | Functions/construct_csv.py:96-101 | a row reads back as group, datatype, topic, the fields' comma-separated pieces and the text without its quotes |
| ConstructCsv.RowHasSixCells | Functions/construct_csv.py:100-101 | with at most one comma in the brackets a row has as many cells as the header, six |
| ConstructCsv.RowCellsSplitTopic | Functions/construct_csv.py:94-101 | the topic is written unquoted, so a row reads back as group, datatype, the comma-separated pieces of the topic, the pieces of the fields and the text |
| ConstructCsv.TopicCommasAddCells | Functions/construct_csv.py:94-101 | with at most one comma in the brackets, a row has six cells plus one for each comma in its topic |
| EfaAnalysis.ToColumn | Functions/efa_analysis.py:184-195 | only 0 gives `""`, and every character is a letter `A`–`Z` |
| EfaAnalysis.FromColumn | Functions/efa_analysis.py:184-195 | the bijective base-26 value of a column, at least 1 when it is not empty |
| EfaAnalysis.ColumnRoundTrip | Functions/efa_analysis.py:184-195 | reading the letters of `n` back gives `n` |
| EfaAnalysis.ColumnRoundTripBack | Functions/efa_analysis.py:184-195 | every string of letters is the column of its value, so every column is reached |
| EfaAnalysis.ToColumnInjective | Functions/efa_analysis.py:184-195 | different numbers have different letters |
| EfaAnalysis.ColumnExamples | Functions/efa_analysis.py:188-194 | 1 is A, 26 is Z, 27 is AA, 52 is AZ, 53 is BA, 702 is ZZ, 703 is AAA |
| EfaAnalysis.Base26 | Functions/efa_analysis.py:184-195 | the loop and the final reversal give exactly the column letters `ToColumn(n)` of `n` (whose value is `n`, by `ColumnRoundTrip`) |
| EfaAnalysis.XLabels | Functions/efa_analysis.py:201 | one label per factor, none when the count is not positive |
| EfaAnalysis.XLabelAt | Functions/efa_analysis.py:201 | label `x` is `Factor ` followed by non-empty letters worth `x + 1` |
| EfaAnalysis.XLabelsDistinct | Functions/efa_analysis.py:201 | no two factors share a label |
| EfaAnalysis.CheckNumber | Functions/efa_analysis.py:168-172 | valid if and only if the text is non-empty and all digits; otherwise the `is not a valid number...` error |
| EfaAnalysis.DecimalValue | Functions/efa_analysis.py:178 | `int` of a digit string lies below `10^len`, and reaches `10^(len-1)` when the first digit is not `0` |
| EfaAnalysis.DecimalRoundTrip | Functions/efa_analysis.py:178 | `int` of the decimal spelling of `n` is `n` |
| EfaAnalysis.AcceptedNumberRoundTrip | Functions/efa_analysis.py:168-181 | every text `check_number` accepts, without leading zeros, is the decimal spelling of the number `int` reads from it |
| EfaAnalysis.LeadingZero | Functions/efa_analysis.py:178 | a leading `0` does not change the number `int` reads |
| EfaAnalysis.CheckFilename | Functions/efa_analysis.py:233-240 | valid if and only if the name matches the pattern and `<name>.txt` is not an existing result; the error for each case |
| EfaAnalysis.BadNameIgnoresResults | Functions/efa_analysis.py:235-239 | a bad name is rejected whatever results exist |

## Left out

- The interactive parts are left out because they do interactive I/O:
  - the prompts (`get_group`, `get_datatype`, `get_filename`, `get_topics`, `get_name`);
  - the drivers `construct_csv()` and `efa_analysis()`;
  - the status messages.
- Directory listings, file contents and the output file are inputs:
  - `os.listdir` becomes a sequence of names.
  - A text file becomes the sequence of lines that iterating it yields.
  - The output file becomes the `AppendFile` chunk sequence.
  - File-system errors and text encodings are not modelled.
- `lib.get_files` (efa_analysis.py:237) is not defined in `Functions/library.py`, so it is not part of this model. `EfaAnalysis.CheckFilename` takes its result as the parameter `existingResults`.
- The factor analysis itself is left out because it is numeric work in foreign libraries:
  - the `EFA` and `EFA_Settings` classes;
  - Horn's parallel analysis;
  - `FactorAnalyzer`, numpy, pandas;
  - the plots (beyond their x-axis labels).
- `Functions/keywords.py` and the `Formats` helpers are not part of this model.
- A missing `group`, `datatype` or `text` key (`dic.get` returning `None`) is not modelled, because every `SourceFile` has all three.
- EfaAnalysis.CheckNumber: accepts ASCII digits only. Python's `isdigit` also accepts other Unicode digits, such as superscripts, which `int` may then reject.
- EfaAnalysis.Base26: takes a natural number. For a negative `n` the Python loop never ends, since `n` stays negative.
- ConstructCsv.RowCells: reading rows back is stated for a group, datatype and topic without commas, quotation marks or newlines. `RowCellsSplitTopic` drops the condition on commas in the topic. The name pattern lets one trailing newline through, and such a group would split its row across two lines.
