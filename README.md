# messytables ZIP table set, modelled in Dafny

This project models `ZIPTableSet` from messytables. It reads every table out of
a ZIP archive. Each entry of the archive gets an extension hint from its file
name and is handed to the auto-detecting table loader. The tables of all
loaded entries are concatenated into one flat list. An entry the loader does
not recognize (a `ValueError`) is recorded as `filename: message` and skipped.
Any other exception aborts the whole call. If no table at all was gathered, the
call raises `ValueError("ZIP file has no recognized tables (<records joined by ', '>).")`.

Layout:

- `wrappers.dfy`, module `Wrappers`: `Option`, standing for Python's `None` or a value.
- `text.dfy`, module `Text`: the string builtins the code uses. `LastIndexOf` is
  `str.rindex` (None where `rindex` would raise), and `Join` is `str.join`. It also has `Occurs`, which means "is a substring of".
- `zip.dfy`, module `Zip`: the model itself.
  - `Extension` is the extension hint.
  - `CollectTables` is the loop over the entries.
  - Class `ZipTableSet` has `storedTables` (Python's `_tables`), set by the constructor and read by `Tables()` (the `tables` property).
  - `ZipTableSet.FromFileobj` is the class method `from_fileobj`.

The archive is given as the sequence of its entries in enumeration order. Each
entry is a file name and an opaque content. Opening an entry and calling the
table loader on it is one call to a `Dispatcher`. A dispatcher is an arbitrary
total function from the entry and its extension hint to one of three outcomes:
`Parsed(tables)`, `Unrecognized(message)` or `Fatal(fault)`. Tables are an
opaque type parameter.

The loop is proved against `Run`, a function giving the loop's state after a
prefix of the entries. Lemmas relate `Run` to reference definitions written
entry by entry:

- `NoFatal`: no load failed fatally.
- `ParsedTables`: every entry's tables, concatenated.
- `Records`: every unrecognized entry's record, in order.
- `Successes`: how many entries loaded.

Details of the code the model keeps:

- `from_fileobj` (zip.py:12) takes only the stream. Every entry's hint comes from its own name.
- A name ending in `.` gets the empty string as its hint, which differs from no hint.
- The hint is whatever follows the last `.` of the whole path, directory part included. So `dir.v1/README` gets `v1/README`.
- Failures are kept as a list of `filename: message` strings, in entry order.

## Model

| member | source | states |
|---|---|---|
| `Text.LastIndexOf` | messytables/zip.py:27 | None exactly when the character does not occur. Otherwise an index holding the character, with no occurrence after it: the last occurrence. |
| `Text.JoinContains` | messytables/zip.py:38 | Every part of a `", ".join(...)` appears intact as a substring of the joined string. |
| `Text.Join` | messytables/zip.py:38 | Defines Python's `sep.join(parts)`: the parts in order, with `sep` between neighbours and nowhere else. |
| `Zip.Extension` | messytables/zip.py:26-27 | The hint is None exactly when the name has no `.`. Otherwise the hint has no `.` in it, and the name is some prefix, then `.`, then the hint. |
| `Zip.ExtensionOfSplit` | messytables/zip.py:27 | For any prefix, and any suffix without `.`, the hint of prefix + `.` + suffix is exactly that suffix. With `Extension`'s contract, this pins the hint down uniquely. |
| `Zip.ExtensionOfTrailingDot` | messytables/zip.py:27 | A name ending in `.` gets the empty-string hint, which differs from None. |
| `Zip.ExtensionOfDirectoryDot` | messytables/zip.py:26-27 | `dir.v1/README` gets the hint `v1/README`, and `README` gets None. |
| `Zip.ExtensionOfDoubleSuffix` | messytables/zip.py:27 | `archive.tar.gz` gets `gz`: only the part after the last `.` counts. |
| `Zip.Outcome` | messytables/zip.py:26-30 | Defines loading one entry: the dispatcher applied to the entry and its inferred hint `Extension(filename)`. |
| `Zip.Record` | messytables/zip.py:32 | Defines the failure record `filename + ": " + message`. |
| `Zip.Step` | messytables/zip.py:26-35 | Defines one iteration of the loop. It infers the hint and loads the entry, then extends the tables, or appends the record, or ends the loop with the fault. Once the loop has ended, further steps change nothing. |
| `Zip.Run` | messytables/zip.py:25-35 | Defines the loop's state after the given entries: `Step` applied to each entry in order, starting from no tables and no records. |
| `Zip.NoTablesMessage` | messytables/zip.py:38 | Defines the message `ZIP file has no recognized tables (<records joined by ", ">).`. |
| `Zip.CollectTables` | messytables/zip.py:22-35 | The loop's result is `Run` of the entries. It finishes exactly when no load is fatal, and then holds exactly `ParsedTables` and `Records`. |
| `Zip.RunMeaning` | messytables/zip.py:25-35 | The loop completes if and only if no entry's load is fatal. When it completes, it has gathered the concatenation of every loaded entry's tables and, in entry order, one `filename: message` record per unrecognized entry. |
| `Zip.RunAbortsAtFirstFatal` | messytables/zip.py:29-31 | If entry i is the first whose load fails with a non-ValueError fault, the whole loop ends with that fault, whatever the later entries are. |
| `Zip.AbortedAtFirstFatal` | messytables/zip.py:29-31 | If the loop aborted, some entry i failed with exactly that fault, and no entry before i was fatal. |
| `Zip.EveryEntryAccounted` | messytables/zip.py:25-35 | With no fatal load, the number of failure records plus the number of loaded entries equals the number of entries. |
| `Zip.EntryTablesInOrder` | messytables/zip.py:35 | A loaded entry's tables appear contiguously and in their own order. They sit right after the tables of the entries before it. |
| `Zip.EntryRecordInOrder` | messytables/zip.py:31-33 | An unrecognized entry's record `filename: message` sits right after the records of the entries before it. |
| `Zip.NoTablesIff` | messytables/zip.py:35-37 | No tables are gathered if and only if every entry contributes none: it was unrecognized, it failed fatally, or it loaded with an empty table list. |
| `Zip.AllUnrecognized` | messytables/zip.py:29-33 | When no entry is recognized, no tables are gathered. There are exactly as many records as entries, and record i is entry i's `filename: message`. |
| `Zip.NoTablesMessageLists` | messytables/zip.py:38 | Every failure record is a substring of the message `ZIP file has no recognized tables (...).`. |
| `Zip.NoTablesErrorNamesEachFailure` | messytables/zip.py:32-38 | The no-tables message contains each unrecognized entry's name together with the loader's reason. |
| `Zip.EmptyArchive` | messytables/zip.py:22-38 | An archive with no entries gathers no tables and no records. Its error message is `ZIP file has no recognized tables ().`. |
| `Zip.ZipTableSet.constructor` | messytables/zip.py:8-9 | The new table set's `Tables()` (the `tables` property, lines 42-45) is exactly the list it was given. |
| `Zip.ZipTableSet.Tables` | messytables/zip.py:42-45 | Defines the `tables` property: the stored `_tables` list, unchanged. |
| `Zip.ZipTableSet.FromFileobj` | messytables/zip.py:12-40 | Three results. It propagates a fault exactly when some load is fatal. That fault belongs to an entry i, and no entry before i is fatal. It raises the ValueError exactly when nothing is fatal and no tables were gathered, with the message listing all records. Otherwise it returns a fresh table set whose tables are the non-empty concatenation of every loaded entry's tables, in entry order. |

## Left out

- The `hasattr(fileobj, "seek")` test and the copy into a `StringIO` (lines 18-19) are stream plumbing. The model starts from the archive's entries.
- Archive parsing (`zipfile.ZipFile`, `infolist`, `z.open`, lines 24-25 and 30) belongs to Python's archive library. The archive is a given sequence of entries. A malformed archive's error, raised before any entry is read, is not modelled.
- `AnyTableSet.from_fileobj` (lines 21 and 30) is a foreign collaborator. It is an arbitrary dispatcher function with three outcomes, so every property holds for every possible loader. A `ValueError` from `z.open` lands in the same `except` clause and counts as `Unrecognized` too.
- Reading the loaded set's `tables` (line 35) happens outside the `try`. A ValueError raised there aborts the call, so a dispatcher reports it as `Fatal`, never as `Unrecognized`. A ValueError subclass raised while opening or loading an entry is caught at line 31, so it is `Unrecognized`.
- The model stores and returns the table list as a value. In Python, `ZIPTableSet(tables)` keeps the list object itself, and the `tables` property (lines 42-45) returns that same object. A caller who mutates the returned list therefore mutates `_tables`. That aliasing is not modelled.
- The `with` block's release of the archive handle has no observable effect on the result.
- The `TableSet` base class is not part of this model. Python 2's `e.message` is taken to be a plain string.
- Exceptions are modelled as results. The propagated fault is a string standing for the exception object itself.
