# Bike-share ridership consolidation, modelled in Dafny

The system downloads Toronto bike-share ridership data, unpacks nested zip archives, reads
the CSV files and workbooks it finds, and stacks them into one master table with standard
column names. This project models the decision logic of that pipeline and proves what it does:

- `common.dfy`: `Option`/`Result` wrappers and the few string operations the program uses:
  - ASCII `str.lower`;
  - `startswith`/`endswith`;
  - POSIX `os.path.join`;
  - `re.search` with a literal pattern.
- `utils.dfy` (module `Utils`):
  - `get_file_info`, which splits a path at its last dot under Python's default regular
    expression flags;
  - `extract_files`, the recursive extraction over a finite archive tree.
  - The closure's shared `file_list` is the field of the class `Extractor`.
  - `ExtractInto` is proved against the specification function `Extracted`.
  - `Extracted` threads the shared list through the members. A readable nested archive hands
    back the shared list `L` itself, and the caller then extends the list with it, so the
    list becomes `L + L`.
  - `Once`, a reference traversal that yields every descriptor once, shows that the doubling
    repeats descriptors but never invents or loses one.
- `data_import.dfy` (module `DataImport`):
  - `download_ridership_data` is a loop proved against `DownloadAll`. That function takes
    the per-resource handler as a parameter, and the loop applies the program's handler
    `Fetch`.
  - `consolidate_ridership_data` is a loop proved against `Consolidation`. Its workbook
    branch is a sheet loop proved against `ReadWorkbook`.
  - `validate_data` is a function over the frame.
  - The network is replaced by the bytes each resource's link returns.
  - `pd.read_csv` and `pd.ExcelFile` are replaced by a `Disk` value that says what each
    reader finds at a path.
  - `pd.to_datetime` on one cell is replaced by a parameter `parseTime`.
  - `os.path.isfile` is replaced by the set `isFile` of paths that are regular files after
    extraction.

A frame is a sequence of column labels plus a sequence of rows. Cell `k` of a row lies under
column `k`.

The model follows the code as written, including behaviour that looks unintended:
- A readable nested archive doubles the list built so far (`DoublingExample`). So
  `outer.zip = [inner.zip = [trips.csv]]` yields the descriptor of `trips.csv` twice
  (`NestedTwiceExample`).
- The column allow-list spells `trip  duration` with two spaces, so a `Trip Duration`
  column is never read (`TripDurationNotRead`).
- An `xls` workbook is written to `<name>.xlsx` but read back from `<name>.xls`
  (`SavedWorkbookReadBack`).
- An extracted member whose extension is not lower-case, such as `TRIPS.CSV`, keeps that
  extension in its descriptor. Consolidation lower-cases it and reads `TRIPS.csv` instead
  (`ExtractedReadBack`, `UpperCaseMemberExample`).
- In `validate_data`, the call `.upper()` on a column raises before the row filter. The
  `except` clause then returns the frame, so no row is ever dropped (`ValidateData`).

Further behaviour of the code that the model keeps:
- Extraction keeps no record of the archives it has opened. The model needs none, because an
  archive value is a finite tree.
- Consolidation skips no unreadable file: a reader's exception ends the whole consolidation
  (`ConsolidateError`, `CollectStopsAtError`).
- No row is ever dropped, including rows without a station (`ValidateData`).

`DownloadRidershipData` also returns the `errors` counter and the paths the workbooks were
written to. The source keeps these locally or writes them to disk. Returning them makes the
counting and the write paths observable.

## Model

| member | source | states |
|---|---|---|
| Utils.GetFileInfo | utils.py:23-32 | The result exists exactly when the path is a regular file and the text the pattern spans contains a dot and no line break. That text is the path less one final line break. When it exists, name + "." + format rebuilds that text, and the format holds no dot and no line break, so the split is at the last dot. |
| Utils.LastDot | utils.py:25-26 | The greedy first group stops at the last dot. The result is absent exactly when there is no dot; otherwise it is a dot with no dot after it. |
| Utils.GetFileInfoRoundTrip | utils.py:24-32 | For an existing file whose path has a dot and no line break, the descriptor exists, and name + "." + format is the path itself. |
| Utils.LastDotOfSplit | utils.py:25-31 | A dot followed by dot-free text is the one the split chooses. |
| Utils.GetFileInfoSplit | utils.py:23-32 | Converse round trip. Joining a name and a dot-free format and then splitting gives both back. |
| Utils.FileStep | utils.py:55-58 | A member whose name does not end in `.zip` and that yields a descriptor appends exactly that descriptor after the list so far. |
| Utils.NestedStep | utils.py:50-52 | A readable `.zip` member is extracted into the same location as its parent. The nested call returns the shared list `L`, and the list becomes `L + L`. |
| Utils.BadNestedStep | utils.py:51-54 | A `.zip` member that cannot be opened leaves the list unchanged, and the loop goes on. |
| Utils.EndStep | utils.py:59 | Once every member has been visited, the shared list is returned as it stands. |
| Utils.PlainNamesAreNotZips | utils.py:50 | No member name that can yield a descriptor ends in `.zip`. |
| Utils.ExtractedKeepsPrefix | utils.py:36-59 | Whatever the shared list held before a traversal stays at its front, unchanged. |
| Utils.FlatExtracted | utils.py:46-59 | When no member is a `.zip` that opens, the loop appends every descriptor once, in `namelist()` order, after what the list held before. |
| Utils.ExtractedElements | utils.py:48-58 | After a traversal the list holds exactly what it held before plus what the once-only reference traversal yields. The doubling never invents or loses a descriptor. |
| Utils.OnceIff | utils.py:48-58 | A descriptor comes out exactly when some reachable member not ending in `.zip` yields it from the path `loc/<member>`. Members of unreadable nested archives yield nothing. |
| Utils.ExtractFilesContents | utils.py:34-60 | `extract_files` on a readable archive succeeds. Its list holds exactly the descriptors of the reachable non-`.zip` members, each read under the extraction location. |
| Utils.DoublingExample | utils.py:50-52 | `outer = [a.csv, inner.zip = [b.csv]]` extracted into `out` yields `[a, b, a, b]`. |
| Utils.Doubling | utils.py:50-58 | For any names, a file followed by a readable nested archive holding one file yields `[a, b, a, b]`. |
| Utils.NestedTwiceExample | utils.py:50-52 | `outer.zip = [inner.zip = [trips.csv]]` yields the descriptor of `trips.csv` twice and none for either archive. |
| Utils.NestedTwice | utils.py:50-58 | For any names, an archive holding only a readable nested archive with one file yields that file's descriptor twice. |
| Utils.Extractor.constructor | utils.py:36 | The shared list starts empty. |
| Utils.Extractor.ExtractInto | utils.py:38-59 | Bytes that are not an archive raise `BadZipFile` and leave the list unchanged. Otherwise the new list is the one `Extracted` specifies from the old list, and the call returns that shared list itself. |
| Utils.ExtractFiles | utils.py:34-60 | `extract_files` returns what `ExtractFilesResult` specifies: `BadZipFile` for bytes that are not an archive, else the traversal from an empty list. |
| DataImport.DownloadRidershipData | data_import.py:12-51 | The download loop returns what `DownloadAll` specifies with the handler `Fetch`. That covers filter, dispatch, error count and the first exception of an unreadable archive. |
| DataImport.DownloadStopsAtError | data_import.py:38-39 | Once a resource's archive raises, the whole download raises the same exception. |
| DataImport.DownloadAppend | data_import.py:19-51 | Downloading `a + b` is downloading `a` and then `b`. Descriptors, error counts and written paths come out in resource order. |
| DataImport.StepThen | data_import.py:19-47 | One loop step after two runs equals the second run extended by that step. |
| DataImport.AdmittedOnlyMembers | data_import.py:26-30 | A resource is kept exactly when its name contains some required pattern, or always when no pattern is given. |
| DataImport.AdmittedOnlyAppend | data_import.py:26-30 | The admitted resources of `a + b` are those of `a`, then those of `b`: resource order is kept. |
| DataImport.DownloadFilters | data_import.py:26-30 | Skipping a resource is the same as removing it from the package before an unfiltered download. |
| DataImport.Unhandled | data_import.py:45-47 | The resources counted as errors are admitted and have a format that is neither `zip`, `xlsx` nor `xls`. |
| DataImport.DownloadErrorCount | data_import.py:45-47 | `errors` equals the number of admitted resources whose lower-cased format has no handler. |
| DataImport.SavedWorkbookReadBack | data_import.py:41-44 | A workbook resource yields exactly the descriptor `{name, lower(format)}`, no error, and one written path, `imported_data/<name>.xlsx`, whether the format is `xlsx` or `xls`. Consolidation reads from that path exactly when the format is `xlsx` and the name does not start with `imported_data`. |
| DataImport.ExtractedReadBack | data_import.py:36-39 | Every descriptor extracted from a downloaded archive comes from a reachable member that does not end in `.zip`. If neither the resource name nor that member name is absolute, consolidation reads the descriptor from the path it was split from exactly when its format is lower-case. |
| DataImport.ReadBackPath | data_import.py:36-39 | For relative resource and member names, the path consolidation builds from an extracted descriptor equals the extracted path (less a final line break) exactly when the format is lower-case. |
| DataImport.UpperCaseMemberExample | data_import.py:36-39 | A member `TRIPS.CSV` of resource `rides` gives the descriptor `{imported_data/rides/TRIPS, CSV}`, and consolidation reads it from `imported_data/rides/TRIPS.csv`. |
| DataImport.DownloadedPathPrefix | data_import.py:36 | When the resource name and the member name are both relative, an extracted path starts with `imported_data/`. This is a string prefix only: a member named `../../x.csv` keeps the prefix and still names a file outside the directory. An absolute member name loses the prefix through `os.path.join`. |
| DataImport.FullPath | data_import.py:151-154 | A name starting with `imported_data` gets only `.<lower-cased format>` appended. Any other relative name is placed under `imported_data/`. |
| DataImport.KeepColumns | data_import.py:160 | The kept labels are exactly the labels whose lower-cased form is in the search list. |
| DataImport.KeepColumnsAppend | data_import.py:160 | Selecting labels from `a + b` is selecting from `a`, then from `b`: order and repetitions are kept. |
| DataImport.KeepAppend | data_import.py:160 | A row aligned with its labels keeps its cells in order: the cells under `a` first, then those under `b`. |
| DataImport.KeepOne | data_import.py:160 | A label, and the cell under it, is kept exactly when the label is allowed. |
| DataImport.KeepAligned | data_import.py:168 | A row with one cell per column keeps one cell per kept column. |
| DataImport.SelectKeepsRows | data_import.py:160 | Reading with the column predicate keeps every row and only the allowed columns. Aligned rows stay aligned. |
| DataImport.TripDurationNotRead | data_import.py:126-143 | No capitalisation of `trip duration` is in the search list, while `trip_duration_seconds` is. |
| DataImport.CsvLatin1OnlyOnDecodeError | data_import.py:159-162 | The ISO-8859-1 reading matters only after a UTF-8 decoding error. Disks that agree on the UTF-8 reading read the same. |
| DataImport.CsvFallback | data_import.py:159-162 | After a UTF-8 decoding error the file is read once more with ISO-8859-1. The read succeeds exactly when that reading parses, and gives its frame. |
| DataImport.Concat | data_import.py:177 | `pd.concat` raises exactly on an empty list. The labels of the result are exactly the labels of the frames, and its rows are the frames' rows stacked (`AllRows`). |
| DataImport.AllRowsOne | data_import.py:170 | Stacking one frame gives its rows; with `AllRowsAppend` this fixes the stacked rows of any list of frames. |
| DataImport.AllRowsAppend | data_import.py:170 | Stacking keeps the order of the frames and of their rows. |
| DataImport.ParsedSheetsOrder | data_import.py:164-169 | When no sheet raises there is one frame per sheet, in `sheet_names` order, each read with the column predicate. |
| DataImport.SheetsStopAtError | data_import.py:167-168 | A sheet that raises makes the whole workbook raise. |
| DataImport.ParseSheets | data_import.py:163-170 | The sheet loop returns what `ReadWorkbook` specifies. |
| DataImport.ReadFile | data_import.py:144-176 | A descriptor that is skipped or has another format contributes nothing and raises nothing. One that is not skipped and whose format is `csv`, `xlsx` or `xls` either contributes exactly one frame or raises. |
| DataImport.ReadFileReadsFullPath | data_import.py:151-162 | Only the file at `FullPath(d)` is read: two disks that agree at that path give the same result. |
| DataImport.Contributing | data_import.py:144-171 | The contributing descriptors are exactly those not skipped with a readable format. |
| DataImport.ContributingAppend | data_import.py:144-171 | The contributing descriptors of `a + b` are those of `a`, then those of `b`: input order is kept. |
| DataImport.CollectFramesOrder | data_import.py:157-171 | `df_list` holds one frame per contributing descriptor, in input order, and each is the frame that descriptor's reader yields. |
| DataImport.CollectStopsAtError | data_import.py:157-171 | A reader's exception ends the consolidation with that exception. |
| DataImport.CollectedColumnsAllowed | data_import.py:160-168 | Every frame read holds only allowed columns. |
| DataImport.ReadFileColumnsAllowed | data_import.py:157-170 | A CSV file or a workbook yields only allowed columns. |
| DataImport.SkipListsExact | data_import.py:124-150 | A file named `readme` is skipped whatever its format, and a file whose format is any capitalisation of `docx` is skipped. `README` with format `csv` is not skipped. |
| DataImport.NoFramesCollected | data_import.py:144-171 | When no descriptor contributes, `df_list` stays empty. |
| DataImport.ConsolidationRows | data_import.py:170-181 | The master table has one row per row of the collected frames, stacked in order, each of the same length and with the same cells except under `start time` and `end time`. |
| DataImport.NothingContributes | data_import.py:177 | When no descriptor contributes, the consolidation raises `NoObjectsToConcatenate`. |
| DataImport.MasterColumnsCanonical | data_import.py:118-181 | Every column of the master table is the standard name of some label in the search list. |
| DataImport.ConsolidateRidershipData | data_import.py:118-181 | The consolidation loop, concatenation and validation return what `Consolidation` specifies. |
| DataImport.NormalizeLower | data_import.py:74-82 | Lower-casing before normalising changes nothing. |
| DataImport.NormalizeIdempotent | data_import.py:74-82 | Normalising a label twice is normalising it once. |
| DataImport.NormalizeAliases | data_import.py:75-82 | Any capitalisation of the seven source spellings reaches its standard name, which normalises to itself. |
| DataImport.ValidateTwiceSameColumns | data_import.py:74-82 | Validating a validated frame leaves its labels unchanged. |
| DataImport.ConvertColumn | data_import.py:86-87 | `pd.to_datetime` on one column succeeds exactly when the label occurs once and every cell under it parses as a time. A missing label, a duplicate label or an unparsable cell makes it raise. On success every cell under the label is the parsed original cell, and the labels, the rows, their lengths and every other cell stay as they were. |
| DataImport.ValidateConvertsStart | data_import.py:70-86 | The timestamp fix: when converting `start time` succeeds, every cell under the label normalised to `start time` in the returned frame is the parsed original cell. |
| DataImport.ValidateConvertsEnd | data_import.py:86-87 | When both conversions succeed, every cell under the label normalised to `end time` in the returned frame is the parsed original cell. |
| DataImport.ValidateStartFails | data_import.py:84-115 | `end time` is converted only after `start time`: when the first conversion raises, the frame with renamed labels is returned with every cell unchanged. |
| DataImport.ValidateData | data_import.py:69-115 | No row is dropped and no cell is removed. Every label is lower-cased and renamed by the seven-entry map, in place. Only cells under `start time` or `end time` can change. |

## Left out

- Network access is not modelled: `requests.get` (issued for every resource before the filter), `get_data_package`, `download_station_data` and `weather_data.py`. Each resource carries the bytes its link returns.
- Database and logging are not modelled: `setup_db`, `to_sql`, `setupLogging` and the logger calls. They have no effect on the results.
- `main()` is not modelled. It creates the output directory and fetches both data packages. It then calls `download_ridership_data` with `required_files = ['2022', '2023']` and `download_station_data`, consolidates the ridership files, and writes the master table to SQLite through `setup_db` and `to_sql`.
- Admitted: a `required_files` pattern is matched as a literal substring. Regular-expression metacharacters are not interpreted.
- Strings.Lower: only ASCII letters are lower-cased. Python's `str.lower` also folds other Unicode letters.
- Concat: rows are stacked as they are and not realigned under the union of the labels, and missing cells are not filled with NaN. The union keeps first-appearance order.
- ValidateData: column dtypes are not modelled, and `pd.to_datetime` on one cell is the abstract parameter `parseTime`. The NULL filter, `dropna` and the integer coercion after line 88 are unreachable in the code and are not modelled.
- Utils.Extractor.ExtractInto: a nested archive is opened from its member's own content, not re-read from `loc/<member>` on disk. Files that overwrite each other in the shared flat directory are not modelled. Neither are directories inside the archive beyond "not a regular file".
- `isFile` is the set of regular files once every extraction and write has happened. The order of disk effects is not modelled.
- The parsers are abstract. What `pd.read_csv` and `pd.ExcelFile` find at a path is the `Disk` parameter, and any exception other than a UTF-8 decoding error is the single `ReadFailed`.
