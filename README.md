# report_creator: survey-sheet splitting, in Dafny

report_creator reads a survey workbook. Each sheet is one long table, and a coloured first
cell marks the start of each question. The tool cuts the table into one block per question.
It parses each question's label into a prefix, the question and an optional statement. It
keeps the percentage, mean and median rows of each block, merges blocks that ask the same
question, and strips the words that all response labels of a question share. This project
models that core as Dafny functions and methods and proves what each step guarantees.

The model covers:

- `excel_handler/excel_splitter.py`:
  - `create_mergable_list`, `move_worksheet`, `get_list_of_fills`;
  - `clean_up_question`, `clean_up_questions`, `comparative_separation`;
  - `clean_up_frame`, `df_question_scrubber`, `data_cleanup`;
  - the block-slicing and merging loop of `split_excel`.
- `utilities/utility_functions.py`:
  - `remove_items_from_list`;
  - `check_against_truth_threshold`;
  - `generate_delimiters`.

Sheets, frames and dictionaries are abstract:

- A sheet is a sequence of rows. Each row has the fill colour of its first cell, that cell's
  value (the caption), and the values of the other cells.
- A frame is a sequence of labelled rows.
- A Python dictionary is the sequence of its items in insertion order.

Python exceptions that the code does not catch are modelled as a `Failure` carrying
`IndexError`, `AttributeError`, `ValueError` or `ZeroDivisionError`.

The modules are:

- `Wrappers`: `Option`, `Result` and the Python error kinds.
- `Seqs`: order-preserving filtering and subsequences.
- `PyText`: the Python `str` operations the code relies on:
  - `split()` on whitespace and `split(sep)`;
  - `' '.join`;
  - `replace`;
  - `strip`.
- `UtilityFunctions`: the three helpers in `utilities/utility_functions.py`.
- `SurveySheet`:
  - rows and cells;
  - `create_mergable_list`;
  - the marker rows;
  - the block of rows that belongs to each marker.
- `QuestionLabels`: `clean_up_question`, `clean_up_questions` and `comparative_separation`.
- `Frames`: `clean_up_frame` and `df_question_scrubber`.
- `QuestionBook`: the question-keyed dictionary, the merge step of `split_excel`, and
  `data_cleanup`.
- `Splitter`: `split_excel` from the sheets to the cleaned dictionary.
- `Workbooks`: `move_worksheet`, modelled as a `Workbook` class whose sheet list is reordered
  in place.

Where the code loops, the model is a method with loop invariants, and its `ensures` ties
the result to a specification function. The lemmas then state properties of that function.
Most of these methods are proved equal to the function:

- `RemoveItemsFromList`;
- `GetListOfFills`;
- `CleanUpQuestion`;
- `CleanUpQuestions`;
- `FindSplitIndex`, `DfQuestionScrubber` and `DfQuestionScrubberIntended`;
- `DataCleanup`;
- `MergeSheet` and `SplitExcel`.

`CreateMergableList` is instead tied to `LastPresent` position by position.

`move_worksheet` has no loop. It changes the workbook in place, so it is the method
`Workbook.MoveWorksheet`, whose new sheet list is the specification function `Moved`
applied to the old one.

Parsing `"A.\tQuestion: Statement"` gives the prefix `""`. The code rewrites `A.<tab>` to
`": "` before it splits on `": "`, so the first component is the empty text before the marker
(`ParseOutlinedQuestion`).

## Model

| member | source | states |
|---|---|---|
| UtilityFunctions.RemoveItemsFromList | utilities/utility_functions.py:4-10 | the loop, one rebinding per argument, leaves exactly the elements of `lst` that no argument removes, in their order |
| UtilityFunctions.RemainingIsSubsequence | utilities/utility_functions.py:4-10 | the result is an order-preserving subsequence of `lst` |
| UtilityFunctions.RemainingMembers | utilities/utility_functions.py:4-10 | `x` stays iff `x` is in `lst`, is in no list argument, and equals no non-list argument |
| UtilityFunctions.RemainingIdempotent | utilities/utility_functions.py:4-10 | removing the same arguments a second time changes nothing |
| UtilityFunctions.CountTrue | utilities/utility_functions.py:14 | `count(True)` is at most the length; it equals the length iff all are true, and 0 iff none is |
| UtilityFunctions.CheckAgainstTruthThreshold | utilities/utility_functions.py:13-14 | a threshold of at most 0 is always reached and one above 1 never is |
| UtilityFunctions.ThresholdByCounting | utilities/utility_functions.py:13-14 | on a non-empty list the check holds iff `count(True) >= threshold * len` |
| UtilityFunctions.ThresholdMonotone | utilities/utility_functions.py:13-14 | passing a threshold implies passing every lower one |
| UtilityFunctions.ThresholdExtremes | utilities/utility_functions.py:13-14 | all-true passes every threshold up to 1; all-false fails every positive threshold |
| UtilityFunctions.GenerateDelimiters | utilities/utility_functions.py:17-20 | 52 + len(args) entries: `letter + "." + suffix` for a..z then A..Z, then the args in order |
| UtilityFunctions.AsciiLettersInOrder | utilities/utility_functions.py:18 | `string.ascii_letters` has 52 letters, a..z then A..Z |
| UtilityFunctions.DelimitersDistinct | utilities/utility_functions.py:17-20 | the 52 outline delimiters are pairwise different, each a letter followed by `.` and the suffix |
| PyText.Find | excel_handler/excel_splitter.py:213 | the leftmost occurrence of the separator, or -1 exactly when there is none |
| PyText.JoinSplit | excel_handler/excel_splitter.py:213 | joining the parts of `split(sep)` with `sep` gives back the text |
| PyText.ReplaceIsJoinOfSplit | excel_handler/excel_splitter.py:212 | `replace(pat, repl)` is the `split(pat)` parts joined with `repl` |
| PyText.SplitPiecesFree | excel_handler/excel_splitter.py:213 | no part of `split(sep)` contains `sep` |
| PyText.SplitHasTwoPieces | excel_handler/excel_splitter.py:213 | `split(sep)` has at least two parts iff `sep` occurs |
| PyText.ReplaceRemoves | excel_handler/excel_splitter.py:212 | after `replace(pat, repl)` with a replacement that cannot recreate it, `pat` no longer occurs |
| PyText.ReplaceKeepsFree | excel_handler/excel_splitter.py:211-212 | a later replacement does not reintroduce an earlier delimiter |
| PyText.Strip | excel_handler/excel_splitter.py:214 | the result has no leading or trailing whitespace and is the text with only whitespace cut from both ends |
| PyText.StripTrimmed | excel_handler/excel_splitter.py:214 | stripping text without edge whitespace leaves it unchanged |
| PyText.Words | excel_handler/excel_splitter.py:198 | every piece of `split()` is a non-empty run without whitespace |
| PyText.WordsOfJoin | excel_handler/excel_splitter.py:267 | splitting words that were joined by spaces gives back the words |
| PyText.JoinOfWordsEmpty | excel_handler/excel_splitter.py:271-272 | joined words are empty iff there are no words |
| SurveySheet.LastPresentIsMostRecent | excel_handler/excel_splitter.py:40-49 | the most recent value is None iff all are None, and otherwise is a value followed only by Nones |
| SurveySheet.CreateMergableList | excel_handler/excel_splitter.py:40-49 | same length; each value stays at its position; each None becomes the most recent earlier value, or stays None |
| SurveySheet.Markers | excel_handler/excel_splitter.py:245-253 | marker indices are strictly increasing row positions |
| SurveySheet.MarkersAreMarkerRows | excel_handler/excel_splitter.py:245-253 | row `j` is a marker iff its fill is one of `question_cell_colors` |
| SurveySheet.GetListOfFills | excel_handler/excel_splitter.py:245-253 | returns exactly the rows whose first fill is a question colour, in strictly increasing order |
| SurveySheet.BlockRange | excel_handler/excel_splitter.py:312-323 | block `i` holds exactly the data rows from `marker[i]+1` up to `marker[i+1]-1`, or to the end for the last marker |
| SurveySheet.BlocksDisjoint | excel_handler/excel_splitter.py:315-323 | blocks follow one another in marker order without overlapping |
| SurveySheet.NoMarkerInBlock | excel_handler/excel_splitter.py:315-323 | no marker row lies inside any block |
| SurveySheet.BlocksCoverDataRows | excel_handler/excel_splitter.py:312-323 | every data row below the first marker that is not a marker lies in exactly one block |
| SurveySheet.LastMarkerAbove | excel_handler/excel_splitter.py:315-323 | a row below the first marker lies between the last marker above it and the next marker |
| QuestionLabels.OutlineDelimitersAreMarkers | excel_handler/excel_splitter.py:210 | `generate_delimiters(suffix='\t')` lists exactly the 52 letter-period-tab markers |
| QuestionLabels.CleanUpQuestion | excel_handler/excel_splitter.py:209-222 | a text cell is parsed; any other cell raises `AttributeError` |
| QuestionLabels.RewrittenHasNoOutlineDelimiter | excel_handler/excel_splitter.py:210-212 | after the replace loop no outline marker remains |
| QuestionLabels.ReplaceAllRemoves | excel_handler/excel_splitter.py:211-212 | each delimiter already replaced stays absent while the loop goes on |
| QuestionLabels.ParseFailsWithoutSeparator | excel_handler/excel_splitter.py:213-216 | parsing raises `IndexError` exactly when the rewritten text has no `": "` |
| QuestionLabels.ParsedComponentsClean | excel_handler/excel_splitter.py:213-220 | prefix, question and statement are stripped and contain no `": "` |
| QuestionLabels.ComponentsClean | excel_handler/excel_splitter.py:214-220 | components chosen from stripped, separator-free parts are themselves stripped and separator-free |
| QuestionLabels.ThreeComponents | excel_handler/excel_splitter.py:214-220 | three trimmed parts give prefix, question and statement in that order |
| QuestionLabels.ParseOutlinedQuestion | excel_handler/excel_splitter.py:209-222 | `"<letter>.\t" + q + ": " + st` parses to prefix `""`, question `q` and statement `st` |
| QuestionLabels.ParseOutlinedQuestionNoStatement | excel_handler/excel_splitter.py:209-222 | `"<letter>.\t" + q` parses to prefix `""`, question `q` and no statement |
| QuestionLabels.CleanUpQuestions | excel_handler/excel_splitter.py:179-194 | no questions raise `IndexError`; a pair with no shared word position raises `ZeroDivisionError`; otherwise the questions come back unchanged with the non-rejected indices |
| QuestionLabels.NoQuestionRejected | excel_handler/excel_splitter.py:192 | filtering the questions against a list of indices drops none |
| QuestionLabels.KeptIndicesSubsequence | excel_handler/excel_splitter.py:193 | the returned indices are an order-preserving subsequence of the input |
| QuestionLabels.RejectedMembers | excel_handler/excel_splitter.py:182-189 | an index is rejected iff some later question repeats its predecessor at that position |
| QuestionLabels.KeptIndexRule | excel_handler/excel_splitter.py:182-193 | with distinct indices, index `k` is kept iff `k` is 0, lies beyond the zipped length, or its question does not repeat the one before |
| QuestionLabels.FirstIndexKept | excel_handler/excel_splitter.py:183 | the first question's index is never rejected |
| QuestionLabels.MatchedWordsAgree | excel_handler/excel_splitter.py:201 | matched words are an order-preserving subsequence of the text's words; each matched word equals the word at the same position of the other text, and every word that agrees with the other text at its position is matched |
| QuestionLabels.MatchedWordsAreWords | excel_handler/excel_splitter.py:201 | matched words are words |
| QuestionLabels.MatchedWordsSelf | excel_handler/excel_splitter.py:201 | a text matches itself completely |
| QuestionLabels.ComparativeSeparation | excel_handler/excel_splitter.py:197-206 | as written: `IndexError` iff the text has more words than the other text; a rest that is kept is never one character long; when every word was matched the rest is `""`, not None |
| QuestionLabels.ComparativeSeparationIntended | excel_handler/excel_splitter.py:197-206 | corrected: the same `IndexError`; the rest is None iff every word was matched, and a rest that is kept is non-empty |
| QuestionLabels.RestEmptyIffAllMatched | excel_handler/excel_splitter.py:203 | the excluded text is empty iff every word of the text is among the matched words |
| QuestionLabels.SeparationParts | excel_handler/excel_splitter.py:197-206 | `IndexError` iff the text has more words than the other text; otherwise the kept text's words are the matched words, every word is matched or excluded, and a rest that is kept splits into exactly the unmatched words of the text, in order |
| QuestionLabels.NothingExcluded | excel_handler/excel_splitter.py:203 | when every word is matched, the excluded text is empty |
| QuestionLabels.SeparationOfItselfKeepsEmptyRest | excel_handler/excel_splitter.py:204 | as written, a text compared with itself gives the rest `""`, not None |
| QuestionLabels.SeparationDropsOneLetterRest | excel_handler/excel_splitter.py:204 | as written, "Q x" against "Q y" gives the rest None although "x" was excluded |
| Frames.AlignedValues | excel_handler/excel_splitter.py:231-239 | a new column of `n` items gives `n` rows |
| Frames.CleanUpFrame | excel_handler/excel_splitter.py:225-242 | failure is `ValueError`; a cleaned frame has one row per response |
| Frames.NamesAsCells | excel_handler/excel_splitter.py:227-229 | a caption is among the value-row names iff it is in `value_storage` |
| Frames.ResponsesRule | excel_handler/excel_splitter.py:227-230 | responses are the non-value captions, or the value-row titles when there are none |
| Frames.KeptRowsRule | excel_handler/excel_splitter.py:228-231 | a row is kept iff its caption is a percentage, mean or median row of `value_storage` |
| Frames.CleanUpFrameRows | excel_handler/excel_splitter.py:225-242 | `ValueError` iff the kept rows are non-empty and differ in number from the responses; otherwise row `i` is labelled by response `i`, paired with the statement when there is one, and carries the kept figures plus the statement column |
| Frames.LabelWords | excel_handler/excel_splitter.py:257-258 | splitting the labels fails only with `AttributeError` |
| Frames.GroupCount | excel_handler/excel_splitter.py:259 | `zip(*split_qs)` is as long as the shortest label |
| Frames.FindSplitIndex | excel_handler/excel_splitter.py:261-265 | the search loop with `break` returns the specified split index |
| Frames.SplitIndexFromMeaning | excel_handler/excel_splitter.py:261-265 | a search from a group on returns 0 or the first disagreeing group beyond it |
| Frames.SplitIndexMeaning | excel_handler/excel_splitter.py:259-265 | the split index is the first word position where labels disagree; it is 0 if none disagree or if the first position does |
| Frames.CommonPrefix | excel_handler/excel_splitter.py:259-265 | all labels share their first split-index words |
| Frames.DfQuestionScrubber | excel_handler/excel_splitter.py:256-274 | as written: the search loop, then the rename loop over the labels, give the frame relabelled by the label-by-label renames and the new question |
| Frames.DfQuestionScrubberIntended | excel_handler/excel_splitter.py:256-274 | corrected: the same search gives the frame whose row `i` is relabelled `new_index[i]`, and the new question |
| Frames.ScrubbedFailure | excel_handler/excel_splitter.py:257-271 | `AttributeError` iff some label is not text; `IndexError` iff the frame is empty |
| Frames.ScrubbedQuestionWords | excel_handler/excel_splitter.py:271-272 | `new_q` is the first label's words before the split index, and None iff the split index is 0 |
| Frames.ScrubbedRowWords | excel_handler/excel_splitter.py:267-272 | corrected relabelling, one row: prefix words plus new-label words give back its original words; its figures are kept |
| Frames.PrefixAndRest | excel_handler/excel_splitter.py:259-267 | each label's words are the common prefix followed by the words of its new label |
| Frames.ScrubbedRows | excel_handler/excel_splitter.py:256-274 | corrected relabelling: every row keeps its figures, and `new_q`'s words plus its new label's words give back its original words; `new_q` is None iff the split index is 0 |
| Frames.RenameCascade | excel_handler/excel_splitter.py:268-269 | the renames keep the number of labels; a label that no rename names stays as it is; every label ends as itself or as one of the new labels |
| Frames.RenameByLabel | excel_handler/excel_splitter.py:268-269 | the rename loop as written applies each rename, by label, to the labels as they stand by then |
| Frames.RenameCascadeMergesLabels | excel_handler/excel_splitter.py:256-269 | as written, labels "A A B" and "A B" both end up "B" |
| Frames.CascadeAfter | excel_handler/excel_splitter.py:268-269 | labels already renamed are left alone by the renames still to come, as long as none of them equals a label still to be renamed |
| Frames.RenameCascadeIsPositional | excel_handler/excel_splitter.py:268-269 | with distinct labels, and no new label equal to a later original label, renaming by label gives row `i` the label `new_index[i]` |
| Frames.ScrubbedAgrees | excel_handler/excel_splitter.py:256-274 | under that condition the code as written and the corrected relabelling give the same frame and new question |
| QuestionBook.Lookup | excel_handler/excel_splitter.py:327-328 | a key is found iff it is present, and the entry found is stored under it |
| QuestionBook.PutLookup | excel_handler/excel_splitter.py:329-331 | after assigning key `q` it maps to the new entry and every other key is unchanged |
| QuestionBook.PutKeys | excel_handler/excel_splitter.py:329-331 | assignment keeps the key order and appends a new key at the end |
| QuestionBook.PutDistinct | excel_handler/excel_splitter.py:329-331 | assignment keeps keys distinct |
| QuestionBook.Merge | excel_handler/excel_splitter.py:327-331 | a question already present gets its frame extended by the block's rows and keeps its sample; a new question gets the block's rows and sample and is added at the end; every other key keeps its entry |
| QuestionBook.MergeAll | excel_handler/excel_splitter.py:315-331 | every block's question becomes a key; the keys already present stay at the front in order; no other key is added; a key with no block keeps its entry |
| QuestionBook.MergeAllAppend | excel_handler/excel_splitter.py:315-331 | merging two runs of blocks is merging their concatenation |
| QuestionBook.MergedEntries | excel_handler/excel_splitter.py:327-331 | after merging, a question holds the frames of all its blocks in order and the sample of its first block; a question with no block is absent |
| QuestionBook.NoSectionNoFrames | excel_handler/excel_splitter.py:327-331 | a question with no block has no rows |
| QuestionBook.MergedDistinct | excel_handler/excel_splitter.py:327-331 | the merged dictionary has distinct keys |
| QuestionBook.DataCleanup | excel_handler/excel_splitter.py:277-289 | the loop computes the specified cleaned dictionary |
| QuestionBook.CleanedBookStopsAtFailure | excel_handler/excel_splitter.py:277-289 | an uncaught exception on an entry ends the cleanup with that exception |
| QuestionBook.CleanedFailure | excel_handler/excel_splitter.py:280-287 | an entry fails iff its frame is empty, and then with `IndexError`; `AttributeError` is caught |
| QuestionBook.CleanedBookFailure | excel_handler/excel_splitter.py:277-289 | the cleanup raises `IndexError` iff some entry has an empty frame |
| QuestionBook.CleanedBookLookup | excel_handler/excel_splitter.py:277-289 | each key of the result holds the last cleaned entry that lands under it |
| QuestionBook.CleanedBookDistinct | excel_handler/excel_splitter.py:277-289 | the cleaned dictionary has distinct keys |
| Splitter.SampleRow | excel_handler/excel_splitter.py:306-307 | the first row captioned "Sample Size"; `IndexError` iff there is none |
| Splitter.CollectMeaning | excel_handler/excel_splitter.py:315-331 | the loop succeeds iff every turn does, keeping each turn's value, and otherwise stops at the first failure |
| Splitter.MergeStep | excel_handler/excel_splitter.py:315-331 | one turn either ends the loop with its exception or extends the merged dictionary by its block |
| Splitter.CollectStopsAtFailure | excel_handler/excel_splitter.py:315-331 | a failed turn is the outcome of the whole loop |
| Splitter.MergeSheet | excel_handler/excel_splitter.py:315-331 | the loop over one sheet's markers merges every block in order, or returns the first exception |
| Splitter.CleanBlock | excel_handler/excel_splitter.py:316-325 | one turn computes the specified section for its marker |
| Splitter.SplitExcel | excel_handler/excel_splitter.py:292-333 | the whole pass computes the specified cleaned dictionary |
| Splitter.AllSectionsStopAtFailure | excel_handler/excel_splitter.py:299-331 | an exception in one sheet ends the whole pass with it |
| Splitter.SectionsPerMarker | excel_handler/excel_splitter.py:309-331 | a sheet yields one section per marker, each its marker's turn |
| Splitter.SectionSample | excel_handler/excel_splitter.py:316-331 | a section carries its sheet's sample row and the parsed question of a text marker |
| Workbooks.IndexOf | excel_handler/excel_splitter.py:53-54 | `index` returns the first position of the name |
| Workbooks.InsertPosition | excel_handler/excel_splitter.py:55 | `insert` counts a negative position from the end and clamps positions outside the list to its ends |
| Workbooks.MovedSources | excel_handler/excel_splitter.py:52-56 | each position of the moved list takes the element of a distinct source position |
| Workbooks.MovedIsPermutation | excel_handler/excel_splitter.py:52-56 | the new order is a permutation of the old one |
| Workbooks.MovedPlacement | excel_handler/excel_splitter.py:52-56 | the moved sheet lands at the clamped `new_position`; the others keep their relative order |
| Workbooks.MovedDistinct | excel_handler/excel_splitter.py:52-56 | moving keeps sheet titles distinct |
| Workbooks.PickMoved | excel_handler/excel_splitter.py:56 | picking sheets through the moved position list is moving the sheets |
| Workbooks.IndexOfDistinct | excel_handler/excel_splitter.py:53 | with distinct names, each name's first position is its own |
| Workbooks.IdentityOrder | excel_handler/excel_splitter.py:53 | `[names.index(x) for x in names]` is `0, 1, ..., n-1` |
| Workbooks.Workbook.SheetNames | excel_handler/excel_splitter.py:53 | `sheetnames` lists the titles in sheet order |
| Workbooks.Workbook.MoveWorksheet | excel_handler/excel_splitter.py:52-56 | a missing title raises `ValueError` and changes nothing; otherwise the sheet moves to `new_position` and titles stay distinct |

## Left out

- Cell styling, column widths and heights, and the contents page (`add_formatting` through
  `preselect_data`, `create_contents_page` apart from the reorder): they format cells and
  compute no values.
- File I/O: `load_workbook`, `create_data_worksheets`, `create_new_workbook`, `wb.save`,
  and the `print` of the theme. These are not modelled. `split_excel` starts from the
  sheets' rows and ends with the cleaned dictionary.
- The column headers of a sheet (`headers` and `cat_headers`, built from rows 5 and 6 with
  `create_mergable_list` and `split(': ')`) and the column MultiIndex built from them.
  Frames carry row values only. The exceptions that building `cat_headers` raises before
  any block is read are not modelled either: `AttributeError` when the first category cell
  is empty (`None.split`) or holds a value that is not text, and `IndexError` when a
  category has no `": "`.
- pandas and openpyxl semantics beyond these rows:
  - `DataFrame.append` is taken to be available. It was removed in pandas 2.0.
  - Appended frames are assumed to align column by column.
  - Every row of a sheet is assumed to have the same width.
  - Label slices assume that the row labels are the positions, as `pd.DataFrame(sheet.values)`
    gives.
- UtilityFunctions.CheckAgainstTruthThreshold: computes over exact reals, not IEEE floats.
  Rounding of `count / len` is not modelled.
- UtilityFunctions.RemoveItemsFromList: Python's `isinstance(arg, list)` is modelled by the
  `Removal` datatype, which says up front whether an argument is a list. Equality between
  values of different Python types is not modelled, except where `clean_up_questions`
  compares strings with integers, which `PyValue` covers.
- QuestionLabels.StripAll: has no contract of its own. Its properties are stated through
  `ParsedComponentsClean` and `ThreeComponents`.
- Workbooks.Workbook.MoveWorksheet: requires distinct sheet titles, which openpyxl
  guarantees. The title is the only part of a worksheet that is modelled.
- QuestionBook.DataCleanup: cleans each entry with the corrected relabelling
  (`Frames.ScrubbedIntended`), not with the label-by-label renames of lines 268-269. The
  two agree whenever the condition of `Frames.ScrubbedAgrees` holds.
- Splitter.SplitExcel: goes through `DataCleanup`, so it too uses the corrected relabelling.

## Findings

| source | as written | input that shows it | evidently intended | confidence | as-written member | corrected member |
|---|---|---|---|---|---|---|
| excel_handler/excel_splitter.py:204 | `excluded_text` becomes None when it is one character long | `comparative_separation("Q x", "Q y")` returns `("Q", None)` though "x" was excluded; comparing a text with itself returns the rest `""` rather than None | the rest is None when nothing was excluded (`len(excluded_text) == 0`) | not executed | QuestionLabels.ComparativeSeparation (SeparationDropsOneLetterRest, SeparationOfItselfKeepsEmptyRest) | QuestionLabels.ComparativeSeparationIntended |
| excel_handler/excel_splitter.py:268-269 | labels are renamed by value one after the other, so a new label can equal a later old label and be renamed again | labels "A A B" and "A B" (split index 1, new labels "A B" and "B") both end up "B" | row `i` receives `new_index[i]` | not executed | Frames.DfQuestionScrubber (RenameCascade, RenameByLabel, RenameCascadeMergesLabels) | Frames.DfQuestionScrubberIntended (ScrubbedRows, ScrubbedAgrees) |
