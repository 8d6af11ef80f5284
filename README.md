# citibike merge: a Dafny model of `all_merge` and the file selection

This project models the part of `data_downloader.py` that decides what the
merged Citi Bike trip file contains:

- `get_files` sorts the names in the data directory into 2013-2016 files
  (old export layout) and 2017-2021 files (new layout). The module-level
  loop then keeps the files that do not start with `2020` or `2021`.
- `all_merge` works in two passes.
  - The first pass reads every input header. It translates each name
    through the `col_trans` table and collects the translated names, first
    seen first, into `fieldnames`.
  - The second pass reads every row as a dict and renames its keys through
    `col_trans`, popping each raw key into its canonical name. It then runs
    the Birth Year / Start Station ID / End Station ID block and hands the
    row to `csv.DictWriter.writerow`.

The model follows the code as written:

- The Birth Year / station block compares with `==` and discards the
  result, so it never changes a row.
- Its two station branches read `line['Birth Year']`. So a row with a
  station-ID column and no `Birth Year` column raises `KeyError('Birth Year')`
  and stops the merge (`RowReconciler.NormaliseFailsOnRaw`). One such row is a
  row keyed by the `start_station_id` name of `col_trans` with no `birth year`
  key (`RowReconciler.StationRowWithoutBirthYearFails`).
- `writerow` uses its defaults: `extrasaction='raise'` and `restval=''`.
  A row key outside `fieldnames` raises `ValueError` and nothing is written.
  A missing column is written as the empty string.

The block at `data_downloader.py` lines 157-165 looks meant to replace a
non-digit Birth Year by `""` and to put `-1` into non-digit station IDs. It
does neither. Its `==` comparisons are statements whose results are thrown
away, and its station branches test and compare `line['Birth Year']`, not
the station ID. The model keeps the code's behaviour.

Modules:

- `Outcomes` holds `Option`, `Result` and the two exceptions the merge can
  raise.
- `ColumnNames` holds `col_trans` and the translation of one name.
- `HeaderUnifier` is the header pass, with its specification `Unified`.
- `RowReconciler` is the rename loop (`Renamed`) and the Birth Year block
  (`Normalise`).
- `CsvOutput` is `DictWriter` as a class whose `lines` field is the output
  file written so far.
- `Merge` holds `all_merge` (`AllMerge`). Its specification is `Emitted`,
  which processes rows until the first exception.
- `FileSelection` holds `get_files` and the pre-COVID loop.

A Python dict is a `Row`: its keys in iteration order plus the key-to-value map.
The order matters because when two raw keys of one row translate to the same
canonical name, the one visited last wins.

## Model

| member | source | states |
|---|---|---|
| ColumnNames.ValuesAreNotKeys | data_downloader.py:168-192 | no canonical name of `col_trans` is itself a raw name of the table |
| ColumnNames.Translate | data_downloader.py:137-142 | the name a header name or row key is written under is never a raw name of `col_trans` |
| ColumnNames.TranslateIdempotent | data_downloader.py:168-192 | translating a translated name changes nothing |
| HeaderUnifier.UnifyHeaders | data_downloader.py:131-142 | the header loop yields `Unified` of all header names of all files in file order |
| HeaderUnifier.UnifiedNoDuplicates | data_downloader.py:136-142 | `fieldnames` never holds a name twice |
| HeaderUnifier.UnifiedMembers | data_downloader.py:136-142 | a name is in `fieldnames` iff it is the translation of a header name read; no raw `col_trans` name is in it |
| HeaderUnifier.UnifiedIsDedup | data_downloader.py:136-142 | the header loop's result is the translated header names with repeats removed, each kept where it first occurs |
| HeaderUnifier.DedupMembers | data_downloader.py:138-142 | removing repeats keeps exactly the names that occur |
| HeaderUnifier.DedupFirstSeenOrder | data_downloader.py:138-142 | removing repeats keeps names in the order of their first occurrence |
| HeaderUnifier.UnifiedFirstSeenOrder | data_downloader.py:136-142 | names in `fieldnames` stand in the order of their first appearance among the translated header names |
| HeaderUnifier.UnifiedExtends | data_downloader.py:136-142 | reading more header names keeps the earlier `fieldnames` as a prefix and adds only new names |
| HeaderUnifier.UnifyFilesExtends | data_downloader.py:132-142 | unifying files A then B starts with A's result and adds only names A did not produce |
| HeaderUnifier.HeaderCoverage | data_downloader.py:131-142 | every header name of every file has its translation in `fieldnames`, and each entry of `fieldnames` translates some header name |
| RowReconciler.RenameFromKeys | data_downloader.py:154-156 | for any table whose values are not keys, the keys left by the pop-and-assign loop are the old keys not renamed away plus the names some visited key is renamed to |
| RowReconciler.RenameFromLast | data_downloader.py:154-156 | a renamed column holds the value of the last visited raw key renamed to it |
| RowReconciler.RenameFromKept | data_downloader.py:154-156 | a key the table leaves alone and that nothing is renamed to keeps its value |
| RowReconciler.RenameRowSpec | data_downloader.py:154-156 | after renaming a dict, its keys are exactly the translations of its old keys, with the values as above |
| RowReconciler.RenamedSpec | data_downloader.py:154-156 | the same for `col_trans`: the renamed row holds exactly the translations of its keys, none of them a raw `col_trans` name; the last renamer wins; untouched keys keep their values |
| RowReconciler.RenameColumns | data_downloader.py:154-156 | the loop over a copy of the keys that pops each raw key into its canonical name yields `Renamed(row)` |
| RowReconciler.Normalise | data_downloader.py:157-165 | the block never changes the row; it raises KeyError('Birth Year') iff the row has a start or end station ID column and no Birth Year column |
| RowReconciler.NormaliseFailsOnRaw | data_downloader.py:153-165 | a renamed row fails the block iff one of its raw keys translates to a station ID and none translates to Birth Year |
| ColumnNames.SnakeCaseStationIds | data_downloader.py:186-188 | the snake_case `start_station_id` and `end_station_id` columns become `Start Station ID` and `End Station ID` |
| ColumnNames.BirthYearSources | data_downloader.py:168-192 | a name is written as `Birth Year` iff it is `birth year` or `Birth Year` itself |
| RowReconciler.StationRowWithoutBirthYearFails | data_downloader.py:153-165 | a row with a `start_station_id` or `end_station_id` key and neither `birth year` nor `Birth Year` raises KeyError('Birth Year'), whatever its other keys and values |
| CsvOutput.Record | data_downloader.py:166 | the written line has one value per output column: the row's value, or "" where the row lacks the column |
| CsvOutput.WriteOutcome | data_downloader.py:166 | `writerow` raises ValueError iff some key is outside `fieldnames`, and otherwise writes the record |
| CsvOutput.DictWriter.constructor | data_downloader.py:147 | a new writer has the given `fieldnames` and has written nothing |
| CsvOutput.DictWriter.WriteHeader | data_downloader.py:148 | `writeheader` appends the column names as one line |
| CsvOutput.DictWriter.WriteRow | data_downloader.py:166 | `writerow` either raises ValueError and leaves the file unchanged, or appends the row's record; it raises iff a key is outside `fieldnames` |
| Merge.ProcessRowSpec | data_downloader.py:153-166 | one pass of the row-loop body succeeds iff the Birth Year block passes and every renamed key is an output column, and it then writes the row's record |
| Merge.StopSpec | data_downloader.py:149-166 | taking row outcomes until the first exception writes the successful outcomes in order; there is no exception iff every outcome was written, and otherwise the error is that of the first outcome not written |
| Merge.StopAppend | data_downloader.py:149-166 | taking outcomes `a` then `b` is taking `a`, then `b` if `a` raised nothing |
| Merge.EmittedSpec | data_downloader.py:149-166 | the data lines are those of the rows in input order, one per row, up to the first row that raises; the run ends without exception iff every row was written, and otherwise the error is that of the next row |
| Merge.EmittedAppend | data_downloader.py:149-166 | processing rows `a` then `b` is processing `a`, then `b` if `a` raised nothing |
| Merge.StopsAtFile | data_downloader.py:149-166 | once the rows of the first files raise, later files add nothing |
| Merge.ReconcileRow | data_downloader.py:153-166 | the row-loop body either raises and leaves the output unchanged, or appends exactly the row's record |
| Merge.AllMerge | data_downloader.py:124-166 | the output is the header line `fieldnames` followed by the records of `Emitted` over all rows of all files, and the exception raised is `Emitted`'s error |
| Merge.RenamedRowsFitFieldNames | data_downloader.py:131-166 | for rows keyed by their file's header, every renamed key is in `fieldnames`, so `writerow` never raises ValueError |
| Merge.MergeOutcome | data_downloader.py:124-166 | on such input the merge can only raise KeyError('Birth Year'), and it writes every row iff no row fails the Birth Year block |
| FileSelection.YearPrefix | data_downloader.py:99-101 | `startswith` with a tuple of four-character years is a look-up of the name's first four characters |
| FileSelection.OldNewExclusive | data_downloader.py:99-101 | no name starts with both an old-layout and a new-layout year |
| FileSelection.GetFiles | data_downloader.py:95-103 | `get_files` returns the 2013-2016 names and the 2017-2021 names of the listing, each in listing order |
| FileSelection.GetFilesClassifies | data_downloader.py:95-103 | a name is an old file iff it is listed and starts with 2013-2016, and likewise for new files with 2017-2021; no name is both |
| FileSelection.WithPrefixMembers | data_downloader.py:98-102 | a name passes the prefix filter iff it is listed and has one of the prefixes |
| FileSelection.WithPrefixAppend | data_downloader.py:98-102 | the prefix filter keeps listing order: filtering a concatenation concatenates the parts |
| FileSelection.PreCovidFiles | data_downloader.py:208-212 | the loop over `old_files + new_files` keeps, in order, the names that start with neither 2020 nor 2021 |
| FileSelection.WithoutPrefixMembers | data_downloader.py:210-212 | a name is kept iff it is listed and starts with neither year |
| FileSelection.WithoutPrefixAppend | data_downloader.py:210-212 | the exclusion filter keeps order over a concatenation |
| FileSelection.OldFilesArePreCovid | data_downloader.py:207-212 | no old-layout file is dropped as COVID-era |
| FileSelection.NewFilesPreCovid | data_downloader.py:207-212 | of the new-layout files, exactly the 2017-2019 ones are kept, in listing order |
| FileSelection.PreCovidSelection | data_downloader.py:207-212 | the files merged are every 2013-2016 name in listing order, then every 2017-2019 name in listing order, and nothing else |

## Left out

- `set_path`, `download_data`, `unzip_items`, `merge_files` and `remove_files` are left out. They change directories, use the network, unzip archives, run pandas chunked copies and delete files.
- The `print` calls of `all_merge` produce console output only.
- The directory listing (`os.listdir`) is a parameter of `FileSelection.GetFiles`. The final call `all_merge(pre_covid_files, 'merge_pre_covid.csv')` is not modelled as one statement, because it opens the named files.
- Opening, reading and writing files is not modelled, and neither are the resulting `IOError`s. The output file is `DictWriter.lines`.
- CSV tokenisation is not modelled. Each input is already parsed (`Merge.CsvFile`): a header row plus its data rows as dicts. An empty file, on which `next(reader)` raises `StopIteration`, is not modelled either.
- Rows shorter or longer than their header are not modelled. `DictReader` fills those with `None` values or a `None` key. `Merge.RowsMatchHeaders` states the well-formed case the last two lemmas assume.
- `RowReconciler.Normalise` leaves out the `isdigit` tests. They only decide whether a discarded `==` comparison runs, so they do not affect the row or the outcome. A `None` Birth Year from a short row would make `isdigit` raise; that case is left out with short rows.
- The iteration order of a row's keys after renaming is not modelled; a renamed row is a map. `writerow` writes in `fieldnames` order, so that order does not affect the output.
- `DictWriter`'s quoting and line terminators are not modelled. A written line is the sequence of its field values.
