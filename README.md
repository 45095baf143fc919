# CSVReader: review scoring pipeline

This models the `CSVReader` class of `gpt_csv_reader.py`. The class reads a CSV file of reviews, asks a chat-completion service to score every review from 1 to 10, and writes the records back sorted by descending score.

`make_estimation` runs four steps in order:

1. Read the records.
2. Build and send the prompt.
3. Parse the completion and merge and sort the scores.
4. Write the sheet.

The model covers the logic in these steps, and the file system and the service enter only as parameters:

- **`Reader.CSVReader`** is a class with the four fields of the Python object:
  - `path`;
  - `data`, an `array<Record>` that the methods update in place;
  - `response`, the content of the completion, once a request was made;
  - `prompt`, the template.

  The steps that change the object are methods with a `modifies` frame; `WriteReviewFile` only reads the fields. The record list that opening the file yields and the completion text are parameters of the methods.
- **`Records`** models a Python dict as a `Record`: the keys in insertion order plus a map holding their values. Assignment keeps an existing key in its place and appends a new key at the end.
- **`Text`** models the string operations the parser relies on, with Python's whitespace table:
  - `replace('- ', '')`;
  - `strip()`;
  - `split('\n')`;
  - `split()`;
  - `int()`;
  - `str()` of an integer.
- **`Scores`** models the response parser. The `ParseResponse` loop builds the `estimation` dict one line at a time and is proved equal to the function `Table`. The first line that does not unpack into two tokens, or whose second token is not an integer, stops the parse with an error. A completion in the form the default prompt asks for, one "email - score" line per review, loses its "- " separators to `replace` and parses to the table of its pairs (`DashedResponse`).
- **`Ranking`** covers the rest of the format step:
  - The merge loop (`Merged`) stops at the first record without an `email` (the KeyError of the source) and leaves the rest of the list untouched.
  - The stable sort by descending `rate` (`SortByRate`) is specified through the generic stable sort `Sorting.SortByKey`.
- **`Sorting`** holds that stable sort. Its single specification has three parts: the result is sorted, it is a permutation of the input, and elements with equal keys keep their relative order. `StableSortUnique` shows that any sorted list satisfying the stability part is the same list, so the specification also describes the stable sort Python's `list.sort` performs. The in-place insertion sort on the array is proved equal to it.
- **`Request`** models `__call_openai` up to the network call:
  - the "No data to send" guard;
  - the KeyError of a record that lacks one of the two columns;
  - the prompt, which is the template followed by the list display of the `[email, review text]` pairs.
- **`Report`** models `__write_review_file` up to the CSV writer: the output path, the header (the first record's keys) and the rows (each record's values in its own key order).

Errors are values of `Common.Error`: `NoDataToSend`, `KeyError`, `UnpackError`, `IntError`, `NoResponse` and `EmptyIndex`. Each stands for the exception the source raises at that point.

The code calls `list.sort`, which is stable, so the model proves stability.

A missing file does not clear the records. The exception is caught and `data` keeps its previous value, which is empty only on a new reader. `ReadReviewFile` models exactly that.

## Model

| member | source | states |
|---|---|---|
| Reader.CSVReader.constructor | gpt_csv_reader.py:14-17 | a new reader holds its path, no records, no response, and the class-level default prompt |
| Reader.CSVReader.SetPrompt | gpt_csv_reader.py:19-24 | the template becomes the given text and no other field changes (the `prompt` setter at lines 99-101 does the same) |
| Reader.CSVReader.ReadReviewFile | gpt_csv_reader.py:39-46 | an opened file replaces the records with its contents; a missing file leaves the records as they were |
| Reader.CSVReader.CallOpenAI | gpt_csv_reader.py:48-62 | the result is the prompt sent, or the error raised before sending; the response is stored only when the request is made |
| Reader.CSVReader.MergeRates | gpt_csv_reader.py:75-76 | the array afterwards is the merged list; the loop completes exactly when every record has an e-mail, and otherwise raises KeyError('email') |
| Reader.CSVReader.SortByRate | gpt_csv_reader.py:78 | given records that all hold an integer `rate` (as the merge leaves them), the array is sorted in place into the stable descending-rate order: the same records, with rates that do not increase |
| Reader.CSVReader.FormatData | gpt_csv_reader.py:64-78 | the outcome and the array afterwards are exactly those the format step specifies for the stored response and the records |
| Reader.CSVReader.WriteReviewFile | gpt_csv_reader.py:80-93 | the sheet handed to the writer is the output for the current path and records |
| Reader.CSVReader.MakeEstimation | gpt_csv_reader.py:26-33 | the pipeline result equals the composed steps; path and prompt stay the same; response and records end as the read, request and format steps leave them |
| Reader.NoDataNoRequest | gpt_csv_reader.py:39-53 | an empty file, or a missing file on a reader without records, stops the pipeline with "No data to send" |
| Reader.EstimationSheet | gpt_csv_reader.py:26-93 | for a well-formed file and a completion that parses, the written sheet is the one for the merged and sorted records, and every record has the file's columns plus `rate` |
| Request.ReviewPairColumns | gpt_csv_reader.py:54 | the pair step reads only the two columns: records that agree on `email` and `review text` give the same pair or the same KeyError |
| Request.BuildPrompt | gpt_csv_reader.py:52-55 | "No data to send" iff there are no records; success iff every record has both columns; the prompt starts with the template; otherwise the error of the first failing record |
| Request.PromptText | gpt_csv_reader.py:54-55 | the prompt is the template followed by the display of the pairs in record order |
| Request.PromptIgnoresOtherColumns | gpt_csv_reader.py:54 | record lists that agree on `email` and `review text` give the same prompt or the same error |
| Request.ItemsBrackets | gpt_csv_reader.py:54 | with bracket-free cells, the display holds exactly one opening bracket per record |
| Text.RemoveDashSpaceAnywhere | gpt_csv_reader.py:68 | an occurrence of "- " anywhere in the text is removed, and the text on either side is processed independently |
| Text.RemoveDashSpaceNone | gpt_csv_reader.py:68 | text without "- " passes through unchanged |
| Text.RemoveDashSpaceSinglePass | gpt_csv_reader.py:68 | the removal is one pass: an occurrence that a deletion forms is kept |
| Text.StripSlice | gpt_csv_reader.py:68 | `strip()` returns a slice that neither starts nor ends with whitespace, and only whitespace is cut off on either side |
| Text.StripEnds | gpt_csv_reader.py:68 | stripping removes exactly the outer whitespace and keeps the interior as it is |
| Text.JoinSplit | gpt_csv_reader.py:68 | splitting on a separator loses nothing: joining the pieces gives the text back |
| Text.SplitJoin | gpt_csv_reader.py:68 | splitting the join of separator-free pieces gives the pieces back |
| Text.TokensEmpty | gpt_csv_reader.py:72 | `split()` gives no tokens exactly when the line is all whitespace |
| Text.TokensSpaced | gpt_csv_reader.py:72 | words laid out between runs of whitespace (any whitespace characters, non-empty between words, possibly empty at either end) split back into exactly those words |
| Text.TokensLayout | gpt_csv_reader.py:72 | every line is such a layout of its own tokens, so the two lemmas together characterise `split()` |
| Text.ParseInt | gpt_csv_reader.py:73 | a literal is accepted iff it is an optional sign followed by one or more ASCII digits; an unsigned digit string denotes its decimal value |
| Text.ParseIntPlus | gpt_csv_reader.py:73 | a leading '+' does not change the value |
| Text.ParseIntMinus | gpt_csv_reader.py:73 | a leading '-' negates the value |
| Text.ParseIntLeadingZero | gpt_csv_reader.py:73 | leading zeros are accepted and do not change the value |
| Text.ParseShow | gpt_csv_reader.py:73 | `int(str(n)) == n` for every integer |
| Scores.Lines | gpt_csv_reader.py:68 | the cleaned completion always gives at least one line |
| Scores.ParseLine | gpt_csv_reader.py:72-73 | a parsed line has exactly two tokens, a token as its identifier, and is not blank; a failure is an unpack error on a token count other than two, or an integer error |
| Scores.ParseLineLayout | gpt_csv_reader.py:72-73 | a line of words between whitespace runs fails to unpack unless it has exactly two words; with two, it gives the first word and the second's integer value, or the integer error of the second |
| Scores.ParseLineSpacing | gpt_csv_reader.py:72-73 | an identifier and a printed integer parse back to the pair whatever whitespace surrounds and separates them |
| Scores.ParseLineCarriageReturn | gpt_csv_reader.py:72-73 | a line that ends in '\r' still parses to its pair |
| Scores.ParseLineFormat | gpt_csv_reader.py:72-73 | a line of the form "identifier score" parses to that pair |
| Scores.ParseLineBlank | gpt_csv_reader.py:72 | an empty or blank line fails with nothing to unpack |
| Scores.ParseLineThree | gpt_csv_reader.py:72 | three words separated by single spaces fail with too many values to unpack |
| Scores.ParseLineNotInt | gpt_csv_reader.py:73 | a second token that is not an integer fails the parse with that token |
| Scores.TableOf | gpt_csv_reader.py:69-73 | the dict's keys are exactly the parsed identifiers, and each maps to the score on its last line |
| Scores.ParseResponse | gpt_csv_reader.py:68-73 | the loop that fills the dict line by line returns the table of the completion, or the error of its first bad line |
| Scores.TableSnoc | gpt_csv_reader.py:73 | one more parsed line is one more dict assignment, so a later line for the same identifier overwrites the earlier one |
| Scores.TableFails | gpt_csv_reader.py:71-73 | when every line before it parses, the first line that does not parse gives the error of the whole parse |
| Scores.TableSucceeds | gpt_csv_reader.py:71-73 | when every line parses, the result is the dict built from all the pairs in line order |
| Scores.TableCases | gpt_csv_reader.py:71-73 | the parse succeeds iff every line parses, and then every line's identifier is in the table |
| Scores.FormattedResponse | gpt_csv_reader.py:68-73 | a completion of "identifier score" lines, one per review, parses back to the table of its pairs |
| Scores.DashLine | gpt_csv_reader.py:68 | removing "- " turns a line "identifier - score", the form the default prompt (line 11) asks for, into "identifier score" |
| Scores.DashedText | gpt_csv_reader.py:68 | a completion of "identifier - score" lines loses exactly its "- " separators and becomes the completion of "identifier score" lines |
| Scores.DashedResponse | gpt_csv_reader.py:68-73 | a completion in the "email - happiness level" form the default prompt (line 11) asks for parses to the table of its pairs |
| Scores.TwoReviewsDashExample | gpt_csv_reader.py:68-73 | the two-line completion "a@x.com - 9", "b@x.com - 2" gives the table {a@x.com: 9, b@x.com: 2} |
| Scores.TwoReviewsExample | gpt_csv_reader.py:68-73 | the two-line completion "a@x.com 9", "b@x.com 2" gives the table {a@x.com: 9, b@x.com: 2} |
| Records.Set | gpt_csv_reader.py:76 | after `r[k] = v`, `k` holds `v`, every other key keeps its value, an existing key keeps its position and a new key goes last |
| Records.SetValid | gpt_csv_reader.py:76 | assignment keeps keys distinct and in step with the stored values |
| Records.Values | gpt_csv_reader.py:93 | `values()` lists, position by position, the value of each key in key order |
| Ranking.LookupUpdate | gpt_csv_reader.py:73-76 | after one entry is written, its e-mail looks up the new score and every other cell looks up as before |
| Ranking.Rated | gpt_csv_reader.py:76 | the rated record's `rate` is the e-mail's score and no other column changes |
| Ranking.FirstWithoutEmail | gpt_csv_reader.py:75-76 | every record before the position has an e-mail, and the record at it has none |
| Ranking.MergedSpec | gpt_csv_reader.py:75-76 | each record before the first one without an e-mail has its e-mail's score as `rate`; no other column of any record changes; later records are untouched |
| Ranking.MergeStops | gpt_csv_reader.py:75-76 | the merge stops at the first record without an e-mail and leaves the remainder of the list untouched |
| Ranking.UnmatchedIgnored | gpt_csv_reader.py:76 | an identifier that matches no record's e-mail does not change the merge |
| Ranking.SortByRateSpec | gpt_csv_reader.py:78 | the sorted list is a permutation, its rates do not increase, and records of equal rate keep their order |
| Ranking.SortByRateUnique | gpt_csv_reader.py:78 | every stable ordering by descending rate equals SortByRate |
| Ranking.FormattedErrors | gpt_csv_reader.py:64-78 | the format step succeeds iff the response parses and every record has an e-mail; otherwise it raises the missing response, the parse error with records untouched, or the KeyError with records rated up to that point |
| Ranking.FormattedSpec | gpt_csv_reader.py:64-78 | on success the records are a permutation of the merged records, by descending rate, stable, each rated by its own e-mail |
| Sorting.InsertionSort | gpt_csv_reader.py:78 | the in-place sort leaves the array equal to the stable sort of its old contents |
| Sorting.SortSorted | gpt_csv_reader.py:78 | the stable sort orders by ascending key |
| Sorting.SortPermutes | gpt_csv_reader.py:78 | the stable sort adds and drops nothing |
| Sorting.SortStable | gpt_csv_reader.py:78 | the elements of each key keep their relative order |
| Sorting.StableSortUnique | gpt_csv_reader.py:78 | two sorted lists with the same elements in the same order per key are equal |
| Report.OutputPath | gpt_csv_reader.py:84 | the output path is the path without its last four characters, followed by `_analyzed.csv` |
| Report.OutputPathOfCsv | gpt_csv_reader.py:84 | `x.csv` is written as `x_analyzed.csv` |
| Report.OutputPathShort | gpt_csv_reader.py:84 | a path shorter than four characters gives just the suffix |
| Report.RenderRate | gpt_csv_reader.py:93 | a written rate reads back as the same integer |
| Report.Output | gpt_csv_reader.py:85-93 | no records is the IndexError of `data[0]`; otherwise the header is the first record's keys and there is one row per record, whose cell j is the rendered value of that record's key j, whatever the header |
| Report.OutputAligned | gpt_csv_reader.py:85-93 | records with the same columns give rows whose cells line up with the header |
| Report.MergedColumns | gpt_csv_reader.py:76 | a completed merge gives every record the file's columns plus `rate` (unless `rate` was already a column) |
| Report.SortedColumns | gpt_csv_reader.py:78 | sorting keeps every record's columns |

## Left out

- The `openai.ChatCompletion.create` call and the API key read from the environment (lines 6, 57-62) are a foreign network client. The completion's content is a parameter of `CallOpenAI`.
- Extracting `choices[0].message['content']` from the service's reply object (line 68) is not modelled. The stored response is the content string itself.
- A missing response is an `AttributeError` on `None` in the source. Here it is the `NoResponse` outcome.
- File open and close, and the `csv` module's reading, quoting and writing (lines 40-41, 88-93), are I/O and library code. Records come in as already-parsed `Record` values, and the output is the `Sheet` of path, header and string rows handed to the writer.
- I/O errors other than `FileNotFoundError` on reading, and any error on writing, are not modelled.
- All `print` output (lines 44, 46, 74, 87) and the interactive `input()` entry point (lines 104-106) are console I/O.
- `Request.Repr`: the list display in the prompt puts a string cell between single quotes without Python's escaping and quote selection, because those rules belong to the library.
- `Text.ParseInt`: accepts only an optional sign followed by ASCII digits, of any length. Python's `int()` also accepts surrounding whitespace (tokens never contain any), underscores between digits and non-ASCII digits. CPython since 3.11 (and the 2022 security releases of 3.7 to 3.10) raises `ValueError` for a literal of more than 4300 digits, which the model accepts; `str()` of such an integer is limited the same way. These limits belong to the interpreter's configuration, not to the code.
- `Ranking.Rate`: a record without an integer `rate` has rate 0, where the source's sort key raises KeyError or TypeError. The method `CSVReader.SortByRate` requires every record to hold an integer `rate`, and the format step proves that the merge leaves them so; the fallback is never reached there.
- The prompt getter (lines 95-97) is read as the `prompt` field.
- The sort is modelled as an insertion sort. It is proved equal to every stable sort by descending rate, but Python's Timsort itself is not modelled.
