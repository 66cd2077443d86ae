# Journal CSV import, modelled in Dafny

The journal stores entries in three SQLite tables:

- `entries`, with an AUTOINCREMENT id;
- `activities`, with an AUTOINCREMENT id and a UNIQUE `name`;
- the join table `entry_activities`, which holds `(entry_id, activity_id)` pairs.

Two one-off scripts fill these tables from a spreadsheet export, one row per journal entry. This project models both scripts as imperative Dafny classes whose fields are the tables. Each method is proved against pure specification functions, and lemmas prove what those functions guarantee.

- `helper-scripts/csv_to_sqlite.py` (module `CsvToSqlite`, class `JournalDb`):
  - It opens or creates the database and seeds a fixed vocabulary of 19 activity names with `INSERT OR IGNORE`.
  - Each spreadsheet row then becomes one entry whose `<br><br>` tags are turned into blank lines.
  - The `activities` column is split at `' | '`, and each stripped piece that is already an activity name becomes one link.
  - Unknown names are skipped and never created. The join table has no key, so the links are a sequence that may repeat.
- `helper-scripts/csv_to_sql.py` (module `CsvToSql`, class `Importer`):
  - It starts from a deleted database and an empty `activity_cache`.
  - It splits the column at `'|'` and creates activities on demand through `get_or_create_activity_id`, which keeps the cache coherent with the table.
  - The join table has the composite primary key `(entry_id, activity_id)`, so the links are a set. A row that names one activity twice raises an IntegrityError, which ends the script. The model stops the import there with a `DuplicateLink` failure.
- Shared pieces:
  - module `Text` models Python's `str.strip()`, `str.split(sep)` and `str.replace(old, new)`, plus the note cleaning;
  - module `Tables` models the rows, the entries and the effect of each SQL statement: `INSERT`, `lastrowid`, `INSERT OR IGNORE` and `SELECT id ... WHERE name = ?`.

Only `csv_to_sql.py` creates activities; `csv_to_sqlite.py` skips names it does not know.

Nothing is read from a file or written to a database. Spreadsheet rows are given as a sequence of records of strings. The iteration order of the Python set of predefined names is a parameter.

## Model

| member | source | states |
|---|---|---|
| Text.TrimLeftSlice | helper-scripts/csv_to_sql.py:48 | `lstrip` removes a leading run of whitespace and nothing else; the result is empty or starts with a non-space |
| Text.TrimRightSlice | helper-scripts/csv_to_sql.py:48 | `rstrip` removes a trailing run of whitespace and nothing else; the result is empty or ends with a non-space |
| Text.StripSlice | helper-scripts/csv_to_sql.py:48 | `strip()` returns a slice of the input that neither starts nor ends with whitespace, with only whitespace around it |
| Text.StripIdempotent | helper-scripts/csv_to_sql.py:48 | stripping a name the row loop already stripped changes nothing |
| Text.StripEmptyIff | helper-scripts/csv_to_sql.py:48-49 | a string strips to empty exactly when it is all whitespace, in both directions |
| Text.Split | helper-scripts/csv_to_sqlite.py:78 | `split(sep)` always returns at least one piece |
| Text.SplitJoin | helper-scripts/csv_to_sqlite.py:78 | joining the pieces with the separator gives back the original column |
| Text.SplitPiecesFree | helper-scripts/csv_to_sql.py:87 | no piece of a split contains the separator |
| Text.SplitWithoutSep | helper-scripts/csv_to_sqlite.py:78 | a column without the separator is one piece, itself |
| Text.SplitAllSpace | helper-scripts/csv_to_sql.py:86-87 | every piece of a whitespace-only column is whitespace-only |
| Text.StripAllAt | helper-scripts/csv_to_sqlite.py:78 | the comprehension strips each piece in place: same length, piece `i` becomes `strip(piece i)` |
| Text.SplitHeadPrefix | helper-scripts/csv_to_sqlite.py:78 | the first piece of a split is a prefix of the column |
| Text.ReplaceIsSplitJoin | helper-scripts/csv_to_sqlite.py:60 | `replace(pat, rep)` equals `rep.join(split(pat))` |
| Text.ReplaceWithoutPattern | helper-scripts/csv_to_sqlite.py:60 | a string without the pattern is returned unchanged |
| Text.ReplacePrefix | helper-scripts/csv_to_sqlite.py:60 | up to the first replacement character, the output copies the input |
| Text.ReplaceRemovesAll | helper-scripts/csv_to_sqlite.py:60 | when the replacement shares no character with the pattern, no occurrence of the pattern survives |
| Text.CleanNoteCutsAtTags | helper-scripts/csv_to_sqlite.py:60 | the stored note is the original cut at every `<br><br>` and rejoined with `\n\n`; the cut pieces hold no tag and rejoin to the original |
| Text.CleanNoteWithoutTags | helper-scripts/csv_to_sql.py:67 | a note without `<br><br>` is stored unchanged |
| Text.CleanNoteIdempotent | helper-scripts/csv_to_sql.py:67 | no `<br><br>` is left in a cleaned note, so cleaning again changes nothing |
| Tables.InsertOrIgnore | helper-scripts/csv_to_sqlite.py:47 | the name is present afterwards; ids already present are kept; a new name gets the counter's value; a name already present leaves the table as it was; the AUTOINCREMENT counter moves past the picked rowid in both cases, as SQLite records it before the UNIQUE check; uniqueness and positive ids are kept |
| Tables.SelectIdUnique | helper-scripts/csv_to_sql.py:55-57 | under unique names the lookup finds a row exactly when the name is present; a found id is positive, below the counter, one of the table's ids, and belongs to no other name |
| Tables.InsertEntryFresh | helper-scripts/csv_to_sqlite.py:63-74 | the id `lastrowid` reports is not used by any earlier entry, and the table stays ordered by increasing positive ids below the counter |
| Tables.ImportedEntriesAt | helper-scripts/csv_to_sqlite.py:58-74 | the row loop stores exactly one entry per row, in row order; row `k` gets id `first + k` and its columns, with the note cleaned |
| CsvToSqlite.SeedAllTable | helper-scripts/csv_to_sqlite.py:46-47 | seeding keeps names unique and ids positive; the table gains exactly the seeded names; existing ids are kept; new names get fresh ids; the counter advances by one per statement executed |
| CsvToSqlite.SeedAllContains | helper-scripts/csv_to_sqlite.py:46-47 | every name the loop visits is in the table afterwards |
| CsvToSqlite.SeedAllIdempotent | helper-scripts/csv_to_sqlite.py:46-47 | `INSERT OR IGNORE` of names already present leaves the table unchanged; only the counter moves, by one per statement |
| CsvToSqlite.SeedTwice | helper-scripts/csv_to_sqlite.py:46-47 | on any table, running the seeding loop a second time leaves the names and ids exactly as the first run left them; the counter only moves on by the number of statements |
| CsvToSqlite.SeedVocabulary | helper-scripts/csv_to_sqlite.py:33-47 | for any visiting order of the predefined set, every predefined name is in the table afterwards, with the properties of SeedAllTable; the counter advances by the vocabulary's size; a table that already held the vocabulary keeps its names and ids |
| CsvToSqlite.MatchLinksReference | helper-scripts/csv_to_sqlite.py:78-83 | each link added for a row goes from that row's entry to an id of the activities table; there are at most as many links as pieces |
| CsvToSqlite.MatchLinksCount | helper-scripts/csv_to_sqlite.py:78-83 | each activity gets exactly as many links as pieces name it, repeats included |
| CsvToSqlite.NoKnownNamesNoLinks | helper-scripts/csv_to_sqlite.py:81-83 | pieces that match no activity name add no link |
| CsvToSqlite.CsvLinksReference | helper-scripts/csv_to_sqlite.py:58-83 | every link of an import goes from one of the imported entries to an existing activity |
| CsvToSqlite.JournalDb.constructor | helper-scripts/csv_to_sqlite.py:6-30 | a database file that did not exist gets three empty tables and counters at 1 |
| CsvToSqlite.JournalDb.CreateDatabase | helper-scripts/csv_to_sqlite.py:5-50 | on any valid database: all predefined names present afterwards; existing ids kept; new names get fresh ids; the activities counter advances by the vocabulary's size; a database already seeded keeps its activity names and ids; entries and links untouched |
| CsvToSqlite.JournalDb.SeedActivities | helper-scripts/csv_to_sqlite.py:46-47 | the seeding loop leaves the table that `SeedAll` describes, and the database valid |
| CsvToSqlite.JournalDb.ProcessRow | helper-scripts/csv_to_sqlite.py:58-83 | one new entry whose id is fresh and above every earlier id, holding the row's columns with the note cleaned; links appended for exactly the row's known names under that id; activities untouched |
| CsvToSqlite.JournalDb.InsertLinks | helper-scripts/csv_to_sqlite.py:79-83 | one `INSERT ... SELECT` per piece appends a link only for pieces that are activity names, in piece order |
| CsvToSqlite.JournalDb.ProcessCsv | helper-scripts/csv_to_sqlite.py:52-85 | after the loop, the entries are one per row with consecutive ids, the links are those of every row in order, the activities are unchanged, and the database is valid |
| CsvToSql.GetOrCreateBlank | helper-scripts/csv_to_sql.py:47-50 | a name blank after stripping returns None and changes neither the table nor the cache |
| CsvToSql.GetOrCreateResolves | helper-scripts/csv_to_sql.py:54-60 | for a non-blank name, the stripped name is in the table and the cache afterwards, and the returned id is the table's id for it |
| CsvToSql.GetOrCreateKeeps | helper-scripts/csv_to_sql.py:51-60 | the cache stays coherent with the table; no name is lost and no id changes; at most the stripped name is added; a returned id is positive and in the table |
| CsvToSql.GetOrCreateTruthy | helper-scripts/csv_to_sql.py:89-90 | `if activity_id:` holds exactly when an id was returned, which happens exactly when the name is not blank |
| CsvToSql.GetOrCreateTwice | helper-scripts/csv_to_sql.py:51-54 | a second call with the same name returns the same id and changes nothing |
| CsvToSql.EntryLinksAdd | helper-scripts/csv_to_sql.py:91-94 | for a new entry, the pair for name `n` is already in the join table exactly when `n` came earlier in the row; adding it extends the row's links by that pair |
| CsvToSql.LinkPiecesProgress | helper-scripts/csv_to_sql.py:88-94 | after any pieces: the registry only grew and stayed coherent; every added link goes from the entry to an existing activity; an error happened exactly when two non-blank pieces share a stripped name; otherwise the table gained exactly the named activities and the entry got one link per name |
| CsvToSql.LinkPiecesStops | helper-scripts/csv_to_sql.py:88-94 | once the IntegrityError is raised, the remaining pieces are not processed |
| CsvToSql.LinkBlankPieces | helper-scripts/csv_to_sql.py:88-90 | blank pieces add no activity and no link |
| CsvToSql.BlankFieldPieces | helper-scripts/csv_to_sql.py:86-87 | a whitespace-only column splits into blank pieces only, naming nothing and repeating nothing |
| CsvToSql.LinkRowGuard | helper-scripts/csv_to_sql.py:86 | the `raw_activities.strip()` guard does not change the outcome: with or without it, a row gets the same links and activities |
| CsvToSql.LinkRowSpec | helper-scripts/csv_to_sql.py:82-94 | a row's links and activities: the same statement as LinkPiecesProgress for the row's column, so the row fails exactly when it names an activity twice |
| CsvToSql.CsvLinksStable | helper-scripts/csv_to_sql.py:54 | adding activities never changes the ids of names already linked, so earlier rows' links stay as they were |
| CsvToSql.CsvLinksReference | helper-scripts/csv_to_sql.py:82-94 | every link of an import goes from one of the imported entries to an existing activity |
| CsvToSql.CsvLinksComplete | helper-scripts/csv_to_sql.py:86-94 | every row of a successful import is linked to each activity it names |
| CsvToSql.Importer.constructor | helper-scripts/csv_to_sql.py:9-45 | after the file is deleted and the schema created: empty tables, empty cache, counters at 1 |
| CsvToSql.Importer.GetOrCreateActivityId | helper-scripts/csv_to_sql.py:47-61 | the method returns the id and leaves the registry that `GetOrCreate` describes; the cache stays coherent; the table only grows |
| CsvToSql.Importer.ImportRow | helper-scripts/csv_to_sql.py:66-94 | one new entry under the counter's id, holding the row's columns with the note cleaned; status and registry are those of LinkRowSpec; on success the table gains exactly the row's names and the entry one link per name |
| CsvToSql.Importer.LinkActivities | helper-scripts/csv_to_sql.py:87-94 | the inner loop leaves the registry, links and error that `LinkPieces` describes |
| CsvToSql.Importer.LinkNextPiece | helper-scripts/csv_to_sql.py:89-94 | one piece: look the name up, then link it unless the pair exists, in which case the IntegrityError is reported |
| CsvToSql.Importer.ImportCsv | helper-scripts/csv_to_sql.py:63-94 | the import fails exactly when some row names an activity twice, and stops at the first such row; every row read becomes one entry with a consecutive id; on success the table gains exactly all names, and the links are exactly one per (row, named activity) pair |
| CsvToSql.Importer.ImportNextRow | helper-scripts/csv_to_sql.py:66-94 | one row of the loop extends the entries by that row, and on success extends the names and links by the row's own |

## Left out

- helper-scripts/convert_base64.py is not part of this model. It is a file read, one base64 library call and a file write.
- CSV reading (`csv.DictReader`, the `utf-8-sig` byte-order mark) is not modelled. Rows are given as records of strings. A missing column, which the scripts would hit as a `KeyError` or as a NULL in a NOT NULL column, is not modelled.
- SQLite connections, `commit`, `close`, and the `try`/`except` that prints in `main` are I/O and are left out.
- CsvToSql.Importer.ImportCsv: on an IntegrityError the script ends without committing, so SQLite discards all of its work. The model only stops the loop, keeping the state reached. The rollback is not modelled.
- CsvToSqlite.JournalDb.ProcessCsv: an exception inside `process_csv` skips its `commit`, and `close` then discards the rows. Only the exception-free run is modelled.
- An ignored `INSERT OR IGNORE` advances the AUTOINCREMENT counter (Tables.InsertOrIgnore). This follows SQLite's implementation, which records the candidate rowid before the UNIQUE check; SQLite documents only that ids are never reused, not the gap. Nothing in the scripts reads the counter.
- AUTOINCREMENT's upper bound (2^63 - 1) and the error past it are not modelled. Ids are unbounded naturals.
- Column type affinity (`DATE`, `TIME`, `TEXT`) does not affect these inserts and is left out.
- SQLite does not enforce the declared foreign keys by default. Referential integrity is proved from the insert logic instead.
- Deleting the database file and the file paths (helper-scripts/csv_to_sql.py:6-11) are filesystem work. They are modelled only as starting from empty tables.
- `predefined_moods` (helper-scripts/csv_to_sqlite.py:40-43) is never used, so no mood validation exists in the scripts or the model.
- The iteration order of the `predefined_activities` set depends on string hashing. It is a parameter, so the model does not say which id a seeded name receives, only that the ids are distinct and fresh.
- `strip()` uses the fixed whitespace set of Python's `str.isspace()` (`Text.IsSpace`). No Unicode database is consulted.
- The final `print` of both scripts is output only and is left out.

## Files

- `text.dfy`: strip, split, join, replace and the note cleaning.
- `tables.dfy`: rows, entries, links and the effect of each SQL statement.
- `csv_to_sqlite.dfy`: seeding, per-row linking of known names, and the `JournalDb` class.
- `csv_to_sql.dfy`: `get_or_create_activity_id`, per-row linking with the composite key, and the `Importer` class.
