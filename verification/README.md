# Resumable recipe batch driver — Dafny model

This project models the batch driver in `src/test_menu_batch.py`. The driver
reads a list of menu names from a text file. It asks a chat-completion
backend for a recipe for each name, one call at a time. After every call it
appends one record to a CSV result file. A run can be interrupted and
started again: the next run skips every name that the file already records
with status `success`.

The model has five modules:

- `Wrappers` holds the `Option` type.
- `MenuList` models `read_menu_names` and the pending-list comprehension of
  `main`:
  - Python's `str.strip()` with the Unicode whitespace set of `str.isspace()`;
  - dropping of blank lines;
  - the truthiness test on `limit` and Python's `[:limit]` slice, negative
    limits included;
  - `Without`, an order-preserving filter.
- `Recipe` models `generate_recipe`:
  - the remote call is an oracle `Call`: either an answer whose reasoning
    and content fields may be absent, or a raised exception;
  - the elapsed time is the text written to the file;
  - every call yields exactly one `Row`, which is `success` or `failed`.
- `ResultStore` models the CSV file:
  - the file is a `FileState`: whether it exists, and its records in file
    order;
  - the header line is the first record;
  - `csv.DictReader` takes its field names from the first record, and a
    repeated field name lets the last column win;
  - `get_completed_menus` is `ScanCompleted`; a read error at record `n`
    is an `Option<nat>` fault, and the names read before the error are kept;
  - class `ResultFile` holds the file as mutable state. Its method `Save`
    models `save_to_csv`: mode `'w'` truncates and writes the header, and
    mode `'a'` appends, creating a missing file without a header.
    Its method `CompletedMenus` is the scanning loop of
    `get_completed_menus`.
- `BatchRun` models `main`:
  - `Run` is the whole run as a function of the file before it and an
    `Environment`. The environment holds the API key, the name file's
    lines, the backend, the two read faults, and the point at which a
    `KeyboardInterrupt` or another exception stops the loop;
  - `RunBatch` is the same run written step by step against a
    `ResultFile`, and it is proved to end in exactly the file and report of
    `Run`. Its loop, `ProcessPending`, is proved to leave the file given by
    `AfterWrites` and the counters given by `AnsweredCalls` and
    `RaisedCalls`;
  - the lemmas state what a run does to the file, to the tallies and to the
    next run.

Two behaviours of the code are modelled as written and proved as lemmas:

- **Truncation of a file with no success record.** `is_new_file` is true
  when the file is missing or when no completed name was found in it. So an
  existing file that holds only failed records, or whose read failed before
  the first success record, is truncated by the run's first save. Every
  earlier record is lost (`TruncationDiscardsEarlierRecords`).
- **Partial scan after a read error.** A read error in `get_completed_menus`
  keeps the names collected before the error. It does not return an empty
  set. The model follows the code here (`PartialScanIsCleanScanOfPrefix`).

## Model

| member | source | states |
|---|---|---|
| `MenuList.Strip` | src/test_menu_batch.py:23-23 | The result is a contiguous slice of the line with only whitespace outside it. It is empty exactly when the line is all whitespace. Otherwise it neither starts nor ends with whitespace. |
| `MenuList.StripIdempotent` | src/test_menu_batch.py:23-23 | Stripping a stripped line changes nothing. |
| `MenuList.NonBlankLines` | src/test_menu_batch.py:22-23 | A string is a menu name exactly when it is a non-empty stripped line. The names keep the file's order (a subsequence of the stripped lines), and there are no more names than lines. Each non-empty stripped line occurs among the names as often as in the file, so duplicate lines are kept. |
| `MenuList.MenuNamesAreStripped` | src/test_menu_batch.py:23-23 | Every name read has no surrounding whitespace left. |
| `MenuList.SlicePrefix` | src/test_menu_batch.py:26-26 | Python's `lines[:limit]`: the result is a prefix. A non-negative limit keeps min(limit, length) elements. A negative limit drops that many elements from the end, or all of them. |
| `MenuList.ReadMenuNames` | src/test_menu_batch.py:20-28 | The result is a prefix of the non-blank stripped lines. With no limit or limit 0 it is all of them. A positive limit keeps min(limit, count) names. A negative limit drops that many from the end, as Python's slice does. Every name is non-empty and stripped. |
| `MenuList.Without` | src/test_menu_batch.py:191-191 | Filtering keeps the original order (a subsequence). A name survives exactly when it was loaded and is not excluded. Every kept name keeps its multiplicity, so duplicates in the name file are retried. |
| `MenuList.PendingMenus` | src/test_menu_batch.py:188-192 | Applying the filter only when the completed set is non-empty is the same as always applying it. |
| `MenuList.WithoutNothing` | src/test_menu_batch.py:189-191 | An empty completed set leaves the list unchanged. |
| `MenuList.WithoutTwice` | src/test_menu_batch.py:188-192 | Skipping one completed set and then another is the same as skipping their union. |
| `Recipe.GenerateRecipe` | src/test_menu_batch.py:66-130 | The name and elapsed time are copied. The status is `success` exactly when the backend answered, and `failed` exactly when it raised. On an answer, the thinking and result columns are the reasoning and content fields, with an absent field written as "". On an exception, thinking is "" and the result is `错误: ` followed by the exception text, which can be recovered. No record equals the header. |
| `ResultStore.Lookup` | src/test_menu_batch.py:37-40 | DictReader's `row.get(key)`: absent exactly when no field name is `key`. Otherwise it is the value in the last column whose field name is `key`, as `dict(zip(fieldnames, row))` keeps the last duplicate. |
| `ResultStore.ScanCompleted` | src/test_menu_batch.py:31-43 | A missing file, or a read error at the very first line, gives no completed names. A clean read of a file that starts with this program's header gives the names of the success records after it. |
| `ResultStore.PartialScanIsCleanScanOfPrefix` | src/test_menu_batch.py:35-42 | A read error at record n keeps what was read before it. The scan finds exactly what a clean scan of the first n records finds. For a file that starts with the header and n ≥ 1, these are the names of the success records among records 1 to n−1. |
| `ResultStore.Readable` | src/test_menu_batch.py:35-42 | The records seen before a read error are a prefix of the file. |
| `ResultStore.HeaderLookup` | src/test_menu_batch.py:39-40 | Under the header this program writes, `row.get('状态')` is the status column and `row.get('食谱名','')` is the name column. |
| `ResultStore.SuccessNamesSpec` | src/test_menu_batch.py:37-40 | The loop over the reader, under any field names: a name is collected exactly when some record reads as a success record carrying it. |
| `ResultStore.HeaderSuccessNamesSpec` | src/test_menu_batch.py:38-40 | A name is collected exactly when some record carries it with status `success`. |
| `ResultStore.SuccessNamesAppend` | src/test_menu_batch.py:38-40 | Scanning more records only adds names: the scan distributes over concatenation. |
| `ResultStore.ScanWithFaultIsSubset` | src/test_menu_batch.py:35-42 | A read error can hide completed names but never invent one. |
| `ResultStore.FailedOnlyNameNotCompleted` | src/test_menu_batch.py:39-40 | A name carried only by failed records is not found completed by a clean scan. |
| `ResultStore.ResultFile.Save` | src/test_menu_batch.py:46-63 | A first save in `'w'` mode leaves exactly [header, record]. Otherwise the record is appended after the old records, and a missing file is created without a header. The file exists afterwards, and the file invariant is kept. |
| `ResultStore.ResultFile.CompletedMenus` | src/test_menu_batch.py:31-43 | The loop over the reader returns the scan of the file: empty when the file is missing, otherwise the names of the success records read before any read error. The file is unchanged. |
| `BatchRun.Run` | src/test_menu_batch.py:157-251 | The whole of `main` as a function. It stops with `MissingApiKey` exactly when the key is empty. It stops with `MenuFileMissing` exactly when the key is set and the name file cannot be opened. Every outcome other than a summary leaves the file unchanged. A missing file is never left with records. |
| `BatchRun.IsNewFile` | src/test_menu_batch.py:204-204 | `is_new_file` holds exactly when the resume scan found no completed name. The `not os.path.exists` disjunct adds nothing, because a missing file yields no names. |
| `BatchRun.AfterWrites` | src/test_menu_batch.py:211-216 | Saving no record leaves the file unchanged. Otherwise the file exists and holds one line per saved record, after either one fresh header (truncating first save) or all the old records. When not truncating, the old records are kept as a prefix. A missing file is never left with records. |
| `BatchRun.Outcomes` | src/test_menu_batch.py:211-216 | The records the loop saves for the first k pending names: exactly k of them, one per processed item (their order is stated by `OutcomesInOrder`). |
| `BatchRun.AnsweredCalls` | src/test_menu_batch.py:218-219 | `success_count` after k items never exceeds k. |
| `BatchRun.RaisedCalls` | src/test_menu_batch.py:220-221 | `failed_count` after k items never exceeds k. |
| `BatchRun.AllCallsAnswered` | src/test_menu_batch.py:218-219 | `success_count` equals the number of processed items exactly when every call answered. |
| `BatchRun.Processed` | src/test_menu_batch.py:210-233 | The loop processes fewer than all pending items exactly when it is stopped before the end. |
| `BatchRun.ProcessPending` | src/test_menu_batch.py:206-225 | After the loop, the file holds one generated record per processed pending name, in order. Only the first save truncates, and only when the file is new. `success_count` and `failed_count` are the numbers of calls that answered and raised. |
| `BatchRun.RunBatch` | src/test_menu_batch.py:157-251 | A run step by step on the file object ends in exactly the file and report of `Run`. A missing API key, or a name file that cannot be opened, stops the run before any change. An empty pending list returns without writing or recounting. Otherwise the loop runs, and then the final count is re-derived from the file. |
| `BatchRun.TalliesMatchRecords` | src/test_menu_batch.py:218-221 | The success and failed counters equal the numbers of `success` and `failed` records written. Together they count each processed item once. |
| `BatchRun.OnlyAnsweredCallsComplete` | src/test_menu_batch.py:213-219 | A generated record makes its name completed exactly when the backend answered. |
| `BatchRun.RunWritesOneRecordPerItem` | src/test_menu_batch.py:211-221 | A run that reaches the loop writes exactly one record per processed item, in pending order. The records follow the old ones, or a fresh header when the first save truncates. The tallies sum to the number of items processed. |
| `BatchRun.HeaderWrittenAtMostOnce` | src/test_menu_batch.py:204-216 | A run that truncates leaves exactly one header in the file. Any other run leaves as many headers as there were before. |
| `BatchRun.TruncationDiscardsEarlierRecords` | src/test_menu_batch.py:204-216 | When the run saves at least one record, an existing file in which no completed name was found is replaced by the header and this run's records. Every earlier record that the run does not write again is gone. |
| `BatchRun.RunKeepsHeaderFirst` | src/test_menu_batch.py:46-63 | A file that is missing or starts with the header still is missing or starts with the header after a run. |
| `BatchRun.CompletedAfterRun` | src/test_menu_batch.py:235-242 | With a clean resume scan, the names completed after a run are those completed before plus those that succeeded in it. The final count is at most the earlier count plus this run's successes. |
| `BatchRun.CompletedAfterWrites` | src/test_menu_batch.py:46-63 | A clean scan after the saves finds the names of the new success records. It also finds the names found before, unless the first save truncated. |
| `BatchRun.ResumeSkipsWhatSucceeded` | src/test_menu_batch.py:188-192 | With clean scans in both runs, the next run retries exactly the pending names that did not succeed in this one, in the same order, whether this run was interrupted or not. |
| `BatchRun.SecondRunAppendsNothing` | src/test_menu_batch.py:188-199 | After a run that processed and succeeded on every pending name, the next run finds nothing pending and leaves the file unchanged. This holds even when the first run's own scan hit a read error. |
| `BatchRun.NothingLeftAfterWrites` | src/test_menu_batch.py:188-194 | Once every pending name has a success record among the saved ones, a clean scan of the file finds every loaded name completed and nothing is pending. |
| `BatchRun.FailedOnlyNameIsPendingAgain` | src/test_menu_batch.py:188-192 | A loaded name that the file records only as failed is pending again, whether or not the scan hit a read error. |
| `BatchRun.InterruptedRunIsPrefixOfFullRun` | src/test_menu_batch.py:210-233 | The file left by a run stopped after at least one item is a prefix of the file the same run leaves when it is not stopped. |
| `BatchRun.OutcomesInOrder` | src/test_menu_batch.py:211-213 | The i-th record of a run is the outcome of the i-th pending name and the i-th call. |
| `BatchRun.OutcomesPrefix` | src/test_menu_batch.py:211-216 | The records of the first j items are a prefix of those of the first n items, for j ≤ n. |
| `BatchRun.HeaderSuccessNamesBound` | src/test_menu_batch.py:218-242 | The distinct completed names in a set of records never outnumber its success records. |

## Left out

- The Ark client, the prompt template, `os.getenv('RECIPE_PROMPT')` and the
  request itself are not modelled. The backend is an oracle that gives each
  call's answer and elapsed time.
- Probing the response object is modelled only in part. `hasattr` on
  `choices`, an empty `choices` list, and a present but falsy field all
  collapse into "field absent", which is written as "".
- Timing is not modelled: `time.time()`, `round(…, 2)` and the two-second
  `time.sleep` between calls. The elapsed time is opaque text.
- CSV quoting and escaping are not modelled, nor is Python's field size
  limit. Blank lines and records with more or fewer than five fields are
  also left out. Every record has exactly five fields.
- The name file's encoding and its split into lines are not modelled. The
  file arrives as a sequence of lines.
- Opening the name file fails only as a whole (`MenuFileMissing`). A read
  error in the middle of it is not modelled.
- An interrupt in the middle of a write is not modelled. Each record is
  either fully saved or not saved at all, so no partial row can appear.
- `csv_to_excel` and the Excel workbook are not modelled. Building it does
  not change the CSV file or any tally.
- The model assumes `csv_to_excel` returns normally. In the code it runs
  unguarded, at line 198 before the early return and at line 239 in the
  `finally` block before the recount. If it raises, for example because the
  workbook cannot be saved, `main` ends with that exception and reports no
  final count. The model's `NothingPending` and `Summary` reports cover only
  the runs where it succeeds.
- Creating the output directory, the file paths and the console messages
  are not modelled.
- Concurrent runs on the same file are not modelled.
- `BatchRun.CompletedAfterRun`: assumes clean reads. It also states an upper
  bound on the final count, not its exact value, because duplicate names
  and a faulty final scan can make the count smaller.
- `BatchRun.Processed`: every stop of the loop is modelled as a stop
  between items, after the items already saved. This covers a
  `KeyboardInterrupt` anywhere in lines 212-225 and any other exception
  raised there outside the `try` of the backend call. Such exceptions
  include an error in `prompt_template.format` (line 73, for example a
  `RECIPE_PROMPT` with a stray `{`) and one in the prints at lines 75-76
  and 121-122. Each stops the loop before item i is saved, and the file is
  as the earlier saves left it. An exception raised inside `save_to_csv`
  is modelled the same way, as a save that did not happen. That is not
  exact for a save in `'w'` mode, as the next line says.
- `ResultStore.ResultFile.Save`: a save in `'w'` mode that raises after
  `open` (line 51), for example in `writer.writerow` at line 57 on a full
  disk or an unencodable character, has already emptied the file. At most
  the header, written at line 55, may remain. The model treats such a save
  as not started, and the file keeps its old records. So
  `BatchRun.TruncationDiscardsEarlierRecords` understates the loss. In the
  code, the earlier records of a file that is about to be truncated are
  gone as soon as the first save opens it, even if that save then fails.
  The final recount then reads the emptied file. For example, the file
  `[header, a failed]` with pending `["a"]` and a failing first `writerow`
  ends as `[header]` with a final count of 0. The model leaves it
  unchanged.
- `BatchRun.ProcessPending`: assumes that no interrupt lands between the
  save at line 216 and the counter update at lines 218-221. If one did, the
  file would hold one more record than the tallies count. The equalities of
  the counters with the records written (`TalliesMatchRecords`,
  `RunWritesOneRecordPerItem`) hold only for runs without such an interrupt.
