# Log filter core, modelled and verified in Dafny

This project models the core of `logfilter_v2.py`. That script finds vehicle-logger
output (`.LOG` files, optionally packed in `.ZIP` archives) under a base directory.
It selects files by serial number or vehicle name and by date window, keeps the
lines that contain a keyword, and writes a text report, a highlighted HTML report
and a per-vehicle HTML summary.

The model keeps the source's own form. Pure helpers are functions. Every loop of
the source is a `method` with a `while`/`for` loop, proved equal to a
specification function. The properties are lemmas about those functions. The
scratch directory that archive extraction writes into is a class (`ScratchDir`)
whose file map the extraction methods update in place.

The modules follow the components of the script:

| module | what it models |
|---|---|
| `Wrappers` | `Option` and `Result` |
| `Text` | the `str`, `os.path` and `html.escape` operations used (POSIX paths, ASCII case) |
| `Sorting` | Python's stable `sorted`, the code-point order on `str`, `sorted(set(..))`, `max` |
| `Dates`, `DateExamples` | `_dates_from_filename`, `_file_date_window`, `_overlaps` |
| `Locator`, `LocatorExamples` | `find_files_by_serial_and_date` and the serial-folder regex |
| `Keywords` | `compile_keyword_patterns`, `filter_log_file` |
| `Archive`, `ArchiveExamples` | `extract_log_files_from_zip` over a scratch directory |
| `Report`, `Reports`, `ReportExamples` | `highlight_text`, `save_results_as_text`, `save_results_as_html` |
| `Vehicles`, `VehicleExamples` | `_vehicle_from_content` |
| `Summary`, `SummaryPage` | `write_vehicle_summary_html`: both passes, the sort, the no-data list, the page |
| `Pipeline` | `process_selected_files`, `run_summary_range` with `_serial_from_path` and `_id_from_path` |

Modelling choices:

- The file system is an input. The base directory is a tree of `Node`s. Every file
  carries its modification day, or `None` when it cannot be read. The local date
  `today` is a parameter. LOG files are given as their lines and archives as their
  members (`Pipeline.Disk`). `os.scandir`/`os.walk` return entries in the order of
  these sequences.
- Dates are `(year, month, day)` triples, ordered lexicographically. A date is valid
  when it is a real calendar day in years 1..9999. `date.min` is `FirstDate` and
  `date.max` is `LastDate`. On the fixed-width digit groups the two patterns
  capture, `strptime` accepts exactly the valid days, so an impossible date is
  dropped.
- Regular expressions are modelled on how Python's `re` runs them. `finditer` takes
  leftmost non-overlapping matches. `re.search` returns the first start with a
  match. The serial-folder pattern tries its alternatives in order, so
  `ipelog282902308` captures `282902308`, and `$` also matches before a final
  newline. `\s*` backtracks, `\b` fails after `_`, and `re.sub` replaces the
  leftmost non-overlapping matches.
- Dictionaries whose order matters are a key sequence plus a map: the highlight
  map, `vehicles` and `results`. A set that is only iterated through `sorted` is
  kept as a list with repeats.
- `highlight_text` is reproduced exactly as written. It escapes the text twice in
  HTML mode, so `&` becomes `&amp;amp;`. A missing or empty map returns the text
  unescaped.

Some behaviours of the code that are easy to misread:

- The display name of a vehicle is the raw name of the first line filed under its
  lower-cased key, whatever that name is.
- The no-data list is a set of exact stripped strings, so `A` and `a` are both
  listed when neither was found. Each string appears once.
- In `run_summary_range` the ids with logs come from the paths of the located
  files, whether or not any of their lines matched.
- An archive entry is renamed to `{base}_{archive}{ext}` only when it is nested in
  a sub-path and its base name already exists. A top-level entry overwrites in
  place.
- Text is read with `errors='ignore'`, so bytes that do not decode are dropped, not
  replaced. Decoding itself is not modelled (see below).

## Model

| member | source | states |
|---|---|---|
| `Dates.DatesFromFilename` | logfilter_v2.py:38-78 | the dates found are those of both patterns in the base name; only when the base name yields none are every path segment's dates returned, in order |
| `Dates.NameDatesValid` | logfilter_v2.py:49-76 | every date found is a real calendar day (a `strptime` failure contributes nothing) |
| `Dates.NameDatesEmpty` | logfilter_v2.py:62-78 | a path yields no date exactly when none of its segments yields one |
| `DateExamples.CompactExample` | logfilter_v2.py:49-53 | `VEH_20250101_T120000.LOG` yields exactly 2025-01-01 |
| `DateExamples.ImpossibleDateExample` | logfilter_v2.py:49-53 | `_20251340_T000000` matches the pattern but yields no date |
| `DateExamples.FolderDateExample` | logfilter_v2.py:62-76 | a base name without a stamp falls back to the stamp of its folder |
| `Dates.FileDateWindow` | logfilter_v2.py:81-92 | never fails; start ≤ end; every named date lies inside and both ends are named dates; otherwise the mtime day, otherwise today |
| `Dates.OverlapsReflexive` | logfilter_v2.py:95-96 | a window with start ≤ end overlaps itself |
| `Dates.OverlapsSymmetric` | logfilter_v2.py:95-96 | overlap does not depend on argument order |
| `Dates.OverlapsIffCommonDay` | logfilter_v2.py:95-96 | two non-empty windows overlap exactly when some day lies in both |
| `Dates.UnboundedWantsAll` | logfilter_v2.py:196-200 | with neither bound given, every window of valid dates overlaps the wanted window |
| `Locator.SerialCapture` | logfilter_v2.py:191-194 | a captured number follows some alternative that matches the name's start, with optional `_` and a digit run to the end; none exactly when no alternative leads to such a run |
| `LocatorExamples.SeparatedSerial` | logfilter_v2.py:191-194 | `ipelog2_82902308` captures `82902308` |
| `LocatorExamples.RunTogetherSerial` | logfilter_v2.py:191-194 | `ipelog282902308` captures `282902308`, because `ipelog` already matches |
| `Locator.DirsOf` | logfilter_v2.py:207 | exactly the directory entries of the base path are kept, in listing order and with their multiplicity (an order-preserving filter) |
| `Locator.PickFiles` | logfilter_v2.py:228-238 | the inner loop appends each `.LOG`/`.ZIP` file whose window overlaps to its list, in order |
| `Locator.PickWalk` | logfilter_v2.py:227-238 | the walk loop gives the picks of every file the walk reports, in walk order |
| `Locator.PickFolders` | logfilter_v2.py:215-262 | the folder loop walks exactly the folders selected in the convention in force |
| `Locator.FindFilesBySerialAndDate` | logfilter_v2.py:154-266 | the result is an error without identities, two empty lists for a missing base path, else the picks of the selected folders |
| `Locator.ErrorIffNoIdentity` | logfilter_v2.py:183-185 | the call fails exactly when every identity is blank after stripping |
| `Locator.MissingBaseFindsNothing` | logfilter_v2.py:206-210 | a base path that does not exist gives two empty lists |
| `Locator.SelectionRule` | logfilter_v2.py:213-248 | with a serial folder present, a folder is walked iff its captured number is a stripped id; otherwise iff its stripped name equals one ignoring case |
| `LocatorExamples.OtherSerialFindsNothing` | logfilter_v2.py:216-224 | `ipelog2_82902308` with ids `{"82902309"}` yields nothing |
| `Locator.LocatedMembers` | logfilter_v2.py:227-262 | a path is in the log list iff it is a `.LOG` file under a selected folder whose window overlaps the wanted one; likewise `.ZIP` files for the archive list |
| `Locator.LocatedExtensions` | logfilter_v2.py:229-238 | every log path ends in `.LOG`; an archive path ends in `.ZIP`, and only when archives are included |
| `Keywords.CompileKeywordPatterns` | logfilter_v2.py:117-118 | one literal pattern per keyword, in order |
| `Keywords.SearchIsLowerContains` | logfilter_v2.py:117-118 | a compiled keyword matches a line exactly when it is a case-insensitive substring |
| `Keywords.FilterLogFile` | logfilter_v2.py:102-114 | the line loop yields the records of the matching lines; a missing file yields none |
| `Keywords.MatchingLinesMembers` | logfilter_v2.py:107-109 | a record is returned iff its 1-based line matches, with the file's base name and the stripped line |
| `Keywords.MatchingLinesOrdered` | logfilter_v2.py:107-109 | line numbers lie in 1..n and strictly increase |
| `Keywords.ErrorExample` | logfilter_v2.py:102-118 | `["error"]` on "Error: disk full", "all fine" gives one record, for line 1 |
| `Archive.LogNames` | logfilter_v2.py:129 | exactly the entries whose upper-cased name ends in `.LOG` are kept, in archive order and with their multiplicity (an order-preserving filter) |
| `Archive.ScratchDir.Extract` | logfilter_v2.py:135 | the entry is written at its sanitised path, replacing what was there |
| `Archive.ScratchDir.MoveFile` | logfilter_v2.py:142 | the move succeeds iff the source exists; then the file leaves the source and replaces the destination |
| `Archive.ExtractEntry` | logfilter_v2.py:135-143 | one round: extract, and move a nested entry to its base name or the renamed name |
| `Archive.ExtractLogFiles` | logfilter_v2.py:124-148 | the returned paths and the new scratch contents are those of the specification |
| `Archive.NothingToExtract` | logfilter_v2.py:129-132 | an invalid archive, or one without `.LOG` entries, returns nothing and leaves the directory unchanged |
| `Archive.RoundShape` | logfilter_v2.py:136-143 | a top-level entry is returned under its own name; a nested one under its base name or `{base}_{zip}{ext}`; only a nested one can fail |
| `Archive.RoundRename` | logfilter_v2.py:135-143 | for a relative name without empty, `.` or `..` components: a top-level entry is written and returned under its own name; a nested entry is moved to its base name when no file has that name, and otherwise to `{base}_{zip}{ext}` with the file at the base name left as it was; the returned name holds the entry's lines and no other file changes |
| `Archive.ExtractAllCount` | logfilter_v2.py:134-147 | one path per log entry unless an error stops the loop, and only at a nested entry |
| `Archive.ExtractAllPaths` | logfilter_v2.py:134-143 | the i-th path belongs to the i-th log entry |
| `Archive.CleanNamesAllExtracted` | logfilter_v2.py:134-143 | with names free of `.`/`..` components, every log entry is extracted |
| `ArchiveExamples.CollisionExample` | logfilter_v2.py:138-142 | a top-level `a.LOG` keeps its name; a nested `sub/a.LOG` becomes `a_Z.zip.LOG` |
| `Report.EscapeOnceIsCharwise` | logfilter_v2.py:277 | the three chained replacements escape each character on its own |
| `Report.DoubleEscape` | logfilter_v2.py:276-282 | escaping runs twice: `&` becomes `&amp;amp;` and `<` becomes `&amp;lt;` |
| `Report.BoundedTerms` | logfilter_v2.py:291-294 | a term gets word boundaries exactly when it is `match` or `mismatch` up to case |
| `Report.CssClass` | logfilter_v2.py:298-306 | class `match`, `mismatch`, `configuration` or `highlight`, each characterised by an iff |
| `Report.SegmentFlatten` | logfilter_v2.py:308 | removing the wrapping gives back the text `re.sub` scanned |
| `Report.SegmentScan` | logfilter_v2.py:308 | `re.sub` replaces exactly the leftmost non-overlapping matches |
| `Report.LongestFirstOrder` | logfilter_v2.py:285 | terms sorted by descending length; a permutation; equal-length terms keep map order |
| `Report.HighlightText` | logfilter_v2.py:272-313 | the term loop yields the specification: prepared text, then one substitution per term, longest first |
| `Report.NoHighlights` | logfilter_v2.py:274-275 | a missing or empty map returns the text unchanged, not even escaped |
| `ReportExamples.MatchAndMismatch` | logfilter_v2.py:285-308 | in "match and mismatch", `mismatch` is wrapped once with class `mismatch` and only the leading `match` gets class `match` |
| `ReportExamples.AmpersandExample` | logfilter_v2.py:276-282 | `&` comes out as `&amp;amp;` |
| `Reports.SaveResultsAsText` | logfilter_v2.py:315-321 | the text written is the header and one line per record |
| `Reports.TextReportCount` | logfilter_v2.py:318 | reading the header back gives the number of records |
| `Reports.TextReportLines` | logfilter_v2.py:318-321 | three header lines, then exactly one line per record |
| `Reports.SaveResultsAsHtml` | logfilter_v2.py:327-357 | the page is the header, one highlighted block per record, and the closing tags |
| `Reports.HtmlReportCount` | logfilter_v2.py:349 | the HTML page states the same count as the text report |
| `Vehicles.ConfigNameShape` | logfilter_v2.py:466 | a configuration name is found only right after the label and some white space, and a `_` follows it |
| `Vehicles.FileNamePrefix` | logfilter_v2.py:477 | the name is a non-empty leading alphanumeric run, followed by `_`, eight digits and `_T` |
| `Vehicles.NoBoundaryAfterUnderscore` | logfilter_v2.py:471 | no `_BEV3` name starts right after `_` |
| `Vehicles.VehicleFromConfig` | logfilter_v2.py:466-468 | rule 1: the leftmost configuration-file name wins |
| `Vehicles.VehicleFromBev` | logfilter_v2.py:471-473 | rule 2: without a configuration name, the leftmost `_BEV3` name wins |
| `Vehicles.VehicleFromFileName` | logfilter_v2.py:476-481 | rules 3 and 4: the file-name prefix, else `Unknown` |
| `VehicleExamples.ConfigExample` | logfilter_v2.py:466-468 | "Configuration file: Axlerod_BEV3_A.cfg" gives `Axlerod` |
| `VehicleExamples.BevExample` | logfilter_v2.py:471-473 | "ab_BEV3" gives `ab` |
| `VehicleExamples.FileNameExample` | logfilter_v2.py:476-479 | an empty line in `Other_20251118_T123000.LOG` gives `Other` |
| `VehicleExamples.UnknownExample` | logfilter_v2.py:481 | with no rule applying, the result is `Unknown` |
| `Summary.ConfigOf` | logfilter_v2.py:536-537 | a configuration text exists exactly when the line has the label |
| `Summary.ProtocolOf` | logfilter_v2.py:541-550 | a protocol text exists iff the line has `Protocols:` or `CCP: EPK`; for the latter it starts with `CCP: EPK` |
| `Summary.ReadLine` | logfilter_v2.py:544-553 | a line is flagged exactly when its protocol text contains "mismatch" in any case |
| `Summary.BuildFileVehicles` | logfilter_v2.py:503-508 | the first loop builds the file-to-vehicle map |
| `Summary.ConfigVehiclesDomain` | logfilter_v2.py:503-508 | a file is mapped iff one of its configuration lines names a vehicle other than `Unknown` |
| `Summary.ConfigVehiclesLast` | logfilter_v2.py:503-508 | a mapped file maps to the vehicle of its last such line |
| `Summary.FileLine` | logfilter_v2.py:514-553 | one iteration of the second loop: `setdefault` under the line's key, then the additions |
| `Summary.GroupLines` | logfilter_v2.py:513-553 | the second loop builds the records |
| `Summary.GroupAllKeys` | logfilter_v2.py:520-531 | a key has a record iff some line is filed under it |
| `Summary.GroupAllName` | logfilter_v2.py:522-531 | the display name is the raw name of the first line filed under the key |
| `Summary.GroupAllSources` | logfilter_v2.py:534 | a file is a source iff one of its lines is filed under the key |
| `Summary.GroupAllConfigs` | logfilter_v2.py:536-538 | a configuration is in a record iff a line filed under the key carries it |
| `Summary.GroupAllProtocols` | logfilter_v2.py:541-551 | a protocol is in a record iff a line filed under the key carries it |
| `Summary.GroupAllMismatch` | logfilter_v2.py:544-553 | `has_mismatch` holds iff some protocol of the record mentions "mismatch" in any case |
| `Summary.KeyOfKey` | logfilter_v2.py:520 | keys are non-empty, lower-cased and stripped |
| `Summary.SortVehiclesOrder` | logfilter_v2.py:556-559 | the order is a permutation; mismatch records come first; then lower-cased names ascend |
| `Summary.SortVehiclesStable` | logfilter_v2.py:556-559 | records with equal sort keys keep their insertion order |
| `Summary.CleanedMembers` | logfilter_v2.py:562-563 | the cleaned ids are exactly the non-blank ids, stripped |
| `Summary.NoDataMembers` | logfilter_v2.py:562-570 | an id is listed iff it is a cleaned requested id whose lower-case form matches no cleaned found id |
| `Summary.NoDataOrder` | logfilter_v2.py:567-570 | each listed id appears once, and the list ascends by lower-case form |
| `Sorting.SortedSet` | logfilter_v2.py:609 | `sorted(set(xs))` holds each distinct element once, in ascending order |
| `Sorting.MaxStr` | logfilter_v2.py:603 | `max` returns an element that no other element exceeds |
| `SummaryPage.SourcesLatest` | logfilter_v2.py:599-604 | the line under the heading shows the greatest base name of the record's sources |
| `SummaryPage.ConfigLineHead` | logfilter_v2.py:610-616 | every configuration line opens with the configuration span |
| `SummaryPage.ConfigLineReadsBack` | logfilter_v2.py:610-616 | the escaped configuration after the span decodes back to the configuration |
| `SummaryPage.MismatchShown` | logfilter_v2.py:623-637 | a protocol containing the word "mismatch" shows the mismatch span, which the later `match` substitution leaves alone |
| `SummaryPage.WriteConfigs` | logfilter_v2.py:607-617 | the configuration block lists the distinct configurations in ascending order |
| `SummaryPage.WriteProtocols` | logfilter_v2.py:620-638 | the protocol block lists the distinct protocols in ascending order |
| `SummaryPage.WriteVehicle` | logfilter_v2.py:594-638 | one record's section: heading, latest source, configuration and protocol blocks |
| `SummaryPage.WriteSections` | logfilter_v2.py:594 | the sections follow the given order of records |
| `SummaryPage.WriteNoData` | logfilter_v2.py:641-648 | the no-data list is written only when it is not empty |
| `SummaryPage.CollectRecords` | logfilter_v2.py:503-553 | both passes give the records of the specification |
| `SummaryPage.WriteVehicleSummaryHtml` | logfilter_v2.py:485-649 | the page is the head, the sorted sections, the no-data list and the tail |
| `SummaryPage.EveryRecordShown` | logfilter_v2.py:594-638 | every record gets its own section on the page |
| `SummaryPage.NoDataShown` | logfilter_v2.py:641-648 | every requested id without logs is named in the no-data list |
| `SummaryPage.NoDataHidden` | logfilter_v2.py:641 | when every requested id is found, no no-data section is written |
| `Pipeline.ScratchReadsBack` | logfilter_v2.py:752-754 | a name held in the scratch directory is read back from that name joined to the directory |
| `Pipeline.RoundReadsBack` | logfilter_v2.py:135-143 | right after its round, the path returned for a plainly named log entry reads back that entry's lines (a later round may overwrite the file, as in the code) |
| `Pipeline.MergeFile` | logfilter_v2.py:792-795 | one file's matches are appended under its base name when there are any |
| `Pipeline.MergeZips` | logfilter_v2.py:785-795 | the archive loop reads each archive's extracted logs in order |
| `Pipeline.MergeLogs` | logfilter_v2.py:796-800 | the LOG loop reads each file in order |
| `Pipeline.ProcessSelectedFiles` | logfilter_v2.py:778-809 | the results are those of the specification; the text and HTML reports are written exactly when some line matched |
| `Pipeline.ProcessedGrouped` | logfilter_v2.py:794-799 | the results hold `all_lines` grouped by file: distinct keys, every line filed, each group non-empty and in order |
| `Pipeline.ZipsFirst` | logfilter_v2.py:784-800 | every archive's matches come before those of the LOG files |
| `Pipeline.SerialFromFirst` | logfilter_v2.py:699-705 | the first path component with a serial-folder name decides the serial |
| `Pipeline.VehicleFolderId` | logfilter_v2.py:707-723 | a file in a vehicle folder under the base path is credited to that folder |
| `Pipeline.FoundIdsMembers` | logfilter_v2.py:729-749 | the ids with logs are exactly the ids of the located paths that have one |
| `Pipeline.ReadLogs` | logfilter_v2.py:729-736 | the LOG loop credits each file's id and collects its matches |
| `Pipeline.ReadZips` | logfilter_v2.py:739-755 | the archive loop credits each archive's id and collects the matches of its extracted logs |
| `Pipeline.ReadFound` | logfilter_v2.py:728-758 | LOG matches come first, then archive matches; ids come from located paths |
| `Pipeline.CleanedLocates` | logfilter_v2.py:668-686 | with an id left after stripping, locating the files cannot fail |
| `Pipeline.NoIdsNoSummary` | logfilter_v2.py:668-671 | with no id left after stripping, the run writes nothing and does not fail |
| `Pipeline.RunSummaryRange` | logfilter_v2.py:652-771 | the run gives nothing without ids, else the summary page of the specification and the file it goes to |

## Left out

- `main`, the command-line parsing and the `--date`/`--from`/`--to` precedence are not modelled. They are argument plumbing.
- `load_config`, `create_default_config` and `save_defaults` are not modelled. They are JSON file persistence; keywords and the highlight map are inputs.
- logfilter_gui.py is not part of this model. It is widgets, a worker thread and a log pump; its `_classify` helper only tags text for display.
- `_parse_date_yyyy_mm_dd` is used only by the command line and the GUI, so it is left out with them.
- All `print` diagnostics are left out. Error conditions show up as results (`Err`, `None`, empty lists).
- The real file system is not modelled: directory listings, modification times, today's date and file contents are inputs. Symbolic links, permissions and `os.scandir` errors other than a missing base path are not modelled.
- The `except FileNotFoundError` around the folder walk (logfilter_v2.py:263-264) has no model. `os.walk` swallows errors, so that branch only catches errors the model does not produce.
- `zipfile` decompression is not modelled: an archive is its list of entries, and an unreadable archive is `None`. Extraction errors other than a failed move are left out. Directories inside the scratch directory are not tracked, and only POSIX name sanitisation (`/`, `.`, `..`) is modelled.
- Archive.RoundRename: stated for entry names without a leading `/` and without empty, `.` or `..` components. Other names are sanitised or refused by `zipfile`; for them only `Archive.RoundShape` holds, and it does not say which of the two names is chosen.
- Creating and removing the temporary directory (`tempfile.mkdtemp`, `shutil.rmtree`) is not modelled. Its name is a parameter, and `ScratchDir` starts empty.
- `_id_from_path`'s `resolve()`/`relative_to` are approximated by a plain prefix test on the path as given.
- Text decoding with `errors='ignore'` and universal-newline splitting are not modelled: a file is given as its lines.
- Keywords.FilterLogFile: a read error part-way through a file returns the lines matched so far in the source; the model returns all or nothing.
- Python's Unicode semantics for `\d`, `\w`/`\b`, `re.IGNORECASE`, `upper()` and `lower()` are approximated by ASCII. `strip()` and `\s` use Python's full set of white-space characters.
- The CSS of the matches page is not modelled: `Reports.PageHead` is a short head with the same title. The report content is modelled exactly. The report writers' output file names and their write-error handling are left out.
- Summary.NoDataOrder: ids that differ only in case tie under the sort key. Python's order for them depends on set iteration order (hashing). The model keeps them in first-occurrence order, so it states only the lower-case ordering.
