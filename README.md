# MIMIC-CXR summarisation data preparation, modelled in Dafny

`Task3/make_mimic_data.py` builds the MEDIQA 2021 radiology-summarisation
datasets. It reads two inputs. The first is the MIMIC-CXR sectioned report
file (`.csv` or `.csv.gz`), with one row per study. The second is the
official split file (`.csv`), which assigns each (study_id, subject_id) pair
to a split. For every requested split it writes a JSON array of records
`{study_id, subject_id, findings, impression, background}`. The three text
fields are the report's `findings`, `impression` and `comparison` columns
with every newline removed.

This project models that record pipeline. The files are read as
already-parsed rows (`map<string, string>`, as `csv.DictReader` yields them).
A file that would be written is returned as a value.

- `records.dfy` (`Records`): rows, id pairs, output entries, and the script's
  exceptions as an `Error` datatype inside a `Result`.
- `text.dfy` (`Text`): `str.endswith` and `str.replace('\n', '')`.
- `split_reader.dfy` (`SplitReader`): `read_split_file`. It is a loop method
  proved equal to the left fold `Group`, with lemmas on counting, order and
  duplicates. `split2ids` is a `defaultdict(list)`: `Ids` gives `[]` for a
  missing split.
- `report_index.dfy` (`ReportIndex`): `read_sectioned_file`. It has the
  suffix dispatch, and a loop method proved equal to `Index`, with lemmas on
  the key set and on the last row of a study winning.
- `writer.dfy` (`Writer`): `write_to_json`. It skips an empty split, joins
  each pair against the index and strips newlines. It is a loop method proved
  equal to `Join`, with lemmas on the shape of the output and on its failure
  cases.
- `driver.dfy` (`Driver`): `main`. The run is rejected when no output path is
  given. Then the report file is read, then the split file, then train, dev
  and test are written in that order, each only when its path is present and
  non-empty. `Outcome` lists the files written and the exception that ended
  the run. A failure while writing dev leaves the train file already written,
  so earlier writes are kept.

Every `KeyError` the script can raise becomes `Failure(KeyError(key))`. This
covers a missing column (`split`, `study_id`, `subject_id`, `study`,
`findings`, `impression`, `comparison`) and a study id with no report. The
keys are looked up in the order the source reads them.

## Model

| member | source | states |
|---|---|---|
| `Text.EndsWith` | Task3/make_mimic_data.py:74-76 | Python's `str.endswith`: a name ends with a suffix exactly when it is some prefix followed by that suffix |
| `Text.StripNewlines` | Task3/make_mimic_data.py:114-116 | the stripped text is no longer than the input and contains no `'\n'` |
| `Text.StripNewlinesDistributes` | Task3/make_mimic_data.py:114-116 | stripping a concatenation is the concatenation of the stripped parts, so the kept characters stay in their order |
| `Text.StripNewlinesKeepsOthers` | Task3/make_mimic_data.py:114-116 | the stripped text has exactly the input's characters other than `'\n'`, each as often as in the input |
| `Text.StripNewlinesFixesClean` | Task3/make_mimic_data.py:114-116 | a text without newlines is left unchanged |
| `Text.StripNewlinesIdempotent` | Task3/make_mimic_data.py:114-116 | stripping twice gives the same result as stripping once |
| `Text.GzipIsNotPlain` | Task3/make_mimic_data.py:74-77 | no file name ends in both `.csv.gz` and `.csv` |
| `ReportIndex.SectionedFormat` | Task3/make_mimic_data.py:73-80 | the sectioned file is accepted exactly when its name ends in `.csv.gz` or `.csv`; any other name fails with the sectioned-format exception, whose fixed message does not depend on the name |
| `ReportIndex.SectionedFormatChoice` | Task3/make_mimic_data.py:73-80 | the opener is gzip exactly for `.csv.gz` and plain exactly for `.csv`; every other name is rejected |
| `ReportIndex.Index` | Task3/make_mimic_data.py:83-89 | every key of the index maps to a row whose `study` column equals that key; a failed read is always `KeyError("study")` |
| `ReportIndex.IndexSucceedsIff` | Task3/make_mimic_data.py:86-88 | indexing succeeds exactly when every row has a `study` column |
| `ReportIndex.IndexKeys` | Task3/make_mimic_data.py:86-88 | the index's key set is exactly the set of the rows' `study` values |
| `ReportIndex.IndexLastWins` | Task3/make_mimic_data.py:86-88 | when several rows share a study, the index holds the last of them |
| `ReportIndex.IndexFailureSticks` | Task3/make_mimic_data.py:86-88 | once a prefix of the rows fails, the whole read fails with the same error, whatever rows follow |
| `ReportIndex.IndexFirstUnkeyed` | Task3/make_mimic_data.py:86-88 | the first row without a `study` column fails the whole read with `KeyError("study")`, whatever rows follow |
| `ReportIndex.SectionedFile` | Task3/make_mimic_data.py:70-89 | read_sectioned_file succeeds exactly when the name has a recognised suffix and every row has a `study` column; a bad name fails with the format exception before any row, an unkeyed row with `KeyError("study")`; on success the keys are exactly the rows' studies |
| `ReportIndex.ReadSectionedFile` | Task3/make_mimic_data.py:70-89 | a name that is neither `.csv.gz` nor `.csv` is rejected whatever the rows are; otherwise the result is `Index` of the rows; the result always equals `SectionedFile` |
| `SplitReader.SplitAndPair` | Task3/make_mimic_data.py:100-101 | a row yields its split and id pair exactly when it has the `split`, `study_id` and `subject_id` columns; the split and the two ids are those columns' values; otherwise the KeyError names a column the row lacks |
| `SplitReader.Group` | Task3/make_mimic_data.py:95-102 | every split present in the grouping has at least one pair (a split gets a key only by an append); a failed read is a KeyError for `split`, `study_id` or `subject_id` |
| `SplitReader.SplitFile` | Task3/make_mimic_data.py:91-103 | read_split_file without the count: it succeeds exactly when the name ends in `.csv` and every row is complete; a name not ending in `.csv` fails with the split-format exception naming the file; on success the list lengths add up to the number of rows |
| `SplitReader.GroupSucceedsIff` | Task3/make_mimic_data.py:99-101 | grouping succeeds exactly when every row has the `split`, `study_id` and `subject_id` columns |
| `SplitReader.GroupCountsEveryRow` | Task3/make_mimic_data.py:95-103 | the lengths of all the per-split lists add up to the number of rows |
| `SplitReader.GroupKeepsOrder` | Task3/make_mimic_data.py:98-101 | each split's list equals the reference filter `PairsIn`: that split's pairs in file order, repeated rows repeated |
| `SplitReader.GroupFailureSticks` | Task3/make_mimic_data.py:99-101 | once a prefix of the rows fails, the whole read fails with the same error, whatever rows follow |
| `SplitReader.GroupFirstIncomplete` | Task3/make_mimic_data.py:99-101 | the first incomplete row fails the whole read with the KeyError of its own first missing column (looked up in the order `split`, `study_id`, `subject_id`), whatever rows follow |
| `SplitReader.ReadSplitFile` | Task3/make_mimic_data.py:91-103 | a name not ending in `.csv` is rejected; otherwise the result is `Group` of the rows, and `total` equals both the number of rows and the sum of the list lengths |
| `Writer.MakeEntry` | Task3/make_mimic_data.py:112-116 | an entry is made exactly when the pair's study is indexed with `findings`, `impression` and `comparison` columns; it copies the pair's study_id and subject_id, and its three text fields hold no newline; an unindexed study fails with KeyError of its study id |
| `Writer.Join` | Task3/make_mimic_data.py:111-117 | a successful join has exactly one entry per id pair; a failed join is a KeyError |
| `Writer.JoinSucceedsIff` | Task3/make_mimic_data.py:111-116 | the join succeeds exactly when every pair's study is indexed with `findings`, `impression` and `comparison` columns |
| `Writer.JoinEntry` | Task3/make_mimic_data.py:111-117 | entry i copies pair i's study_id and subject_id, and its findings, impression and background are pair i's report's findings, impression and comparison with newlines stripped |
| `Writer.JoinMissingStudy` | Task3/make_mimic_data.py:113 | the first pair whose study is not indexed fails the whole join with KeyError of that study id, and no partial list is produced |
| `Writer.JoinFailureSticks` | Task3/make_mimic_data.py:111-117 | once a prefix of the pairs fails, the whole join fails with the same error |
| `Writer.SplitRecords` | Task3/make_mimic_data.py:106-117 | the split is skipped (`None`) exactly when it has no ids; a list to dump has one record per id and is never empty; any failure is a KeyError |
| `Writer.WriteToJson` | Task3/make_mimic_data.py:105-121 | a split with no ids gives `None` (nothing written, not an empty list); otherwise one record per id or the join's error; the result equals `SplitRecords` |
| `Driver.RequestFor` | Task3/make_mimic_data.py:57 | the guard `path is not None and len(path) > 0`: a split is requested, once and to its own path, exactly when its path is present and non-empty |
| `Driver.Requested` | Task3/make_mimic_data.py:57-67 | at most three requests; a requested train comes first and a requested test comes last |
| `Driver.EmitRequestFor` | Task3/make_mimic_data.py:57-67 | the requests are carried out one at a time: a failed write ends the run, otherwise its file comes before the rest |
| `Driver.Emit` | Task3/make_mimic_data.py:57-67 | no more files are written than there are requests, every file written holds at least one record, and the error that stops the writes is a KeyError |
| `Driver.EmitWritesRequested` | Task3/make_mimic_data.py:57-67 | every file written is for one of the requests: that request's split, at that request's path |
| `Driver.Attempt` | Task3/make_mimic_data.py:57-59 | a split whose path is absent or empty writes nothing; a successful attempt writes at most one file, for that split, to its non-empty path, with at least one record; a failed one is a KeyError |
| `Driver.OutputsInOrder` | Task3/make_mimic_data.py:57-67 | the run's writes are the train, dev and test attempts chained in that order, each tried only if the earlier ones did not fail |
| `Driver.EmitWritesNonEmptyInOrder` | Task3/make_mimic_data.py:57-67 | the files written are a prefix of the requests whose split has ids, in request order, and all of them when no write fails |
| `Driver.EmitWritesJoin` | Task3/make_mimic_data.py:57-67 | every file written holds the join of its split's ids, and that split has at least one id |
| `Driver.RequestedPaths` | Task3/make_mimic_data.py:57-67 | a write is requested for train, dev or test exactly when that split's path is present and non-empty, and to that path; no split is requested twice |
| `Driver.RunWritesRequestedInOrder` | Task3/make_mimic_data.py:39-68 | nothing is written unless both files were read; the files written are requested splits that have ids, in the order train, dev, test |
| `Driver.RunSpec` | Task3/make_mimic_data.py:39-67 | the run ends with the no-output-path exception exactly when all three output paths are absent (an empty path counts as given), and it writes no more files than there are requested paths |
| `Driver.WriteIfRequested` | Task3/make_mimic_data.py:57-59 | an absent or empty path writes nothing; otherwise the result is the split's write attempt |
| `Driver.WriteOutputs` | Task3/make_mimic_data.py:57-67 | the three guarded writes give exactly the outcome `Emit` of the requested outputs |
| `Driver.Run` | Task3/make_mimic_data.py:39-68 | with all three output paths absent the run fails with no write and no read; otherwise the outcome equals `RunSpec` |

## Left out

- Command-line parsing (`parse_args`): the three output paths are parameters of type `Option<string>`, and the two input names are strings.
- Opening files, gzip decompression and CSV tokenising: rows arrive already parsed. `ReadSectionedFile` still picks the opener from the suffix, but no opener is modelled.
- JSON serialisation and the file write: a written file is the `Written` value that records its split, path and records. Overwriting a file that already exists is not modelled.
- The `print` progress and summary lines, including the per-split counts that `main` prints.
- `csv.DictReader` fills a short row's missing cells with `None`. The model has no `None` cell: every cell is a string, and an absent key stands for a column missing from the header, which raises `KeyError` in the source.
