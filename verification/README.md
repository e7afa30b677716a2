# FormsProvider, modelled in Dafny

This project models the forms content provider of ODK Collect
(`FormsProvider`). The provider keeps one row per form definition in a
SQLite `forms` table and the definition files, cached `.formdef` files and
media directories on disk. It exposes:

- `insert`: register a form file. The path is normalised and made relative, the hash is computed, and the date, display name, cache path and media path are filled in when absent. A second row for the same file is refused.
- `update` on the whole collection: every matched row is read into a `Form`, converted back to values, overlaid with the caller's values and saved through the forms repository.
- `update` on one form (`forms/#`): delete the files the update supersedes (the cache before the form file), rehash a new form file, and write under `_ID=? AND (where)`. The arguments for that WHERE are built by `prepareWhereArgs`.
- `delete`: every matched row, or the one named row, through the forms repository.
- `deleteFileOrDir`: best-effort, non-recursive removal of a file or a directory.
- the newest-by-form-id view: `GROUP BY jrFormId` with `MAX(date)`.
- `getType` and the URI matcher.

The modules follow that structure:

- `Columns`: cells, rows, ContentValues, the outside path/hash/name capabilities (`Env`), and the `getAsString`/`getAsLong`/cursor getters.
- `Uris`: `UriMatcher` and `getType`.
- `Forms`: the `Form` record and the three conversions between a cursor row, a `Form` and a ContentValues map.
- `Selections`: WHERE clauses and `prepareWhereArgs`.
- `SqlOrder`: SQLite's order on cells, which `MAX(date)` uses.
- `Janitor`: what `deleteFileOrDir` does to the filesystem.
- `Registry`: what each mutation computes, as functions of the old row and the caller's values, plus the two cursor loops of the collection branches.
- `Provider`: class `FormsProvider`. It holds the table (`rows`), the filesystem (`fs`), the rowid the next insert without an `_ID` receives, and a ghost trace of the paths handed to `deleteFileOrDir`. Its methods are `Insert`, `Update`, `Delete`, `DeleteFileOrDir` and the helpers they are split into.

Failures the source raises as exceptions are `Err(...)` results. These are:

- an unknown URI;
- a missing `FORM_FILE_PATH`;
- a null path reaching `new File(...)`;
- a duplicate form file;
- a rejected `_ID`;
- an insert whose rowid is not positive;
- a single-form update left with no column to write (`db.update` refuses empty values).

Behaviour of the code worth noting:

- Insert does not check that the form file exists.
- Insert's duplicate check also counts rows that carry a deleted date.
- `getAsLong` parses text with `Long.valueOf`, so a bulk update whose DATE or DELETED_DATE is decimal text saves that date or marks the form deleted (`BulkTextDeletedDate`).
- The bulk update neither discards a caller's `MD5_HASH` nor touches files. Because `getValuesFromForm` leaves them out, it also saves a null date, a null cache path and a live form unless the patch supplies those columns (`BulkSavedForm`).
- The single update compares the old and new form paths ignoring case. When the row does not exist it reports 0 rows rather than failing. When the caller's values hold nothing but MD5_HASH, removing it leaves nothing to write and `db.update` throws (`EmptyWrite`).
- The single delete always counts 1.
- The newest view does not filter deleted forms. Among rows with equal dates it does not prefer the highest id: it keeps the first row of its group that SQLite meets with the greatest non-NULL date, or, in a group whose dates are all NULL, the last row met.
- `deleteFileOrDir` removes only a directory's files and empty subdirectories. A non-empty subdirectory stays, and so does its parent.

## Model

| member | source | states |
|---|---|---|
| Uris.UriMatch | collect_app/src/main/java/org/odk/collect/android/provider/FormsProvider.java:496-501 | FORMS exactly for the forms path, FORM_ID exactly for the forms path plus one all-digit segment (with the id it spells), the newest view for its own path, otherwise no match |
| Uris.GetType | collect_app/src/main/java/org/odk/collect/android/provider/FormsProvider.java:144-156 | item type exactly for FORM_ID, directory type exactly for FORMS and the newest view, an unknown-URI failure exactly when nothing matches |
| Columns.StringOf | collect_app/src/main/java/org/odk/collect/android/provider/FormsProvider.java:474-494 | getAsString/getString give null exactly for a missing or NULL cell and return text cells unchanged |
| Columns.ParseLong | collect_app/src/main/java/org/odk/collect/android/provider/FormsProvider.java:485-492 | Long.valueOf, which getAsLong applies to text: for digits, `+` digits or `-` digits the number they spell (negated after `-`) when it fits a long and null otherwise; null for anything else |
| Columns.Digits | collect_app/src/main/java/org/odk/collect/android/provider/FormsProvider.java:456-476 | the digits Long.toString writes spell the number and have no leading zero |
| Columns.ParseLongToString | collect_app/src/main/java/org/odk/collect/android/provider/FormsProvider.java:456-492 | every long written by Long.toString reads back through Long.valueOf as itself |
| Columns.CellRoundTrips | collect_app/src/main/java/org/odk/collect/android/provider/FormsProvider.java:454-494 | a Long put into ContentValues, or its decimal text, reads back through getAsLong as itself; a String put there reads back through getAsString as itself; a number reads back through getAsString as its decimal text |
| Columns.LowerAscii | collect_app/src/main/java/org/odk/collect/android/provider/FormsProvider.java:357 | case folding maps each upper-case ASCII letter to its lower-case letter (32 code points on) and leaves other characters alone |
| Columns.EqualsIgnoreCaseProperties | collect_app/src/main/java/org/odk/collect/android/provider/FormsProvider.java:357 | equalsIgnoreCase is reflexive and symmetric, false against null and for different lengths |
| Forms.FormFromCursor | collect_app/src/main/java/org/odk/collect/android/provider/FormsProvider.java:414-452 | the Form built from a cursor row: id and date read with getLong, stored paths made absolute, deleted exactly when DELETED_DATE is not NULL |
| Forms.ValuesFromForm | collect_app/src/main/java/org/odk/collect/android/provider/FormsProvider.java:454-472 | the values hold exactly the fourteen carried columns (no DATE, JRCACHE_FILE_PATH or DELETED_DATE), with paths made relative |
| Forms.FormFromValues | collect_app/src/main/java/org/odk/collect/android/provider/FormsProvider.java:474-494 | the Form built from values: id and date via getAsLong (numbers, or text Long.valueOf parses), paths made absolute, deleted exactly when getAsLong of DELETED_DATE is not null |
| Forms.ValuesRoundTrip | collect_app/src/main/java/org/odk/collect/android/provider/FormsProvider.java:454-494 | getFormFromValues after getValuesFromForm gives the Form back with date and cache path null and deleted false, when the form path conversions are inverse |
| Forms.RoundTripPlainFields | collect_app/src/main/java/org/odk/collect/android/provider/FormsProvider.java:457-482 | display name, description, form id, version and submission URI survive the round trip |
| Forms.RoundTripKeyFields | collect_app/src/main/java/org/odk/collect/android/provider/FormsProvider.java:463-491 | public key, language and geometry xpath survive the round trip |
| Forms.RoundTripSettingFields | collect_app/src/main/java/org/odk/collect/android/provider/FormsProvider.java:467-490 | auto-send and auto-delete survive the round trip |
| Forms.RoundTripOtherFields | collect_app/src/main/java/org/odk/collect/android/provider/FormsProvider.java:454-494 | id, hash, form path and media path survive the round trip; date, cache path and deleted do not |
| Forms.UncarriedColumns | collect_app/src/main/java/org/odk/collect/android/provider/FormsProvider.java:454-472 | DATE, JRCACHE_FILE_PATH and DELETED_DATE are not among the carried columns |
| Forms.PlainString | collect_app/src/main/java/org/odk/collect/android/provider/FormsProvider.java:454-494 | any plain text field survives getValuesFromForm and getFormFromValues |
| Forms.CursorValuesCarried | collect_app/src/main/java/org/odk/collect/android/provider/FormsProvider.java:312-315 | what the bulk update reads back from a stored row: the carried columns, the row id, each plain cell as text and the stored form and media paths unchanged |
| Forms.CursorPathCells | collect_app/src/main/java/org/odk/collect/android/provider/FormsProvider.java:439-465 | stored form and media paths read back through absolute and relative conversion as they were stored |
| Forms.PlainCellCarried | collect_app/src/main/java/org/odk/collect/android/provider/FormsProvider.java:433-469 | a plain text cell of a stored row reaches getValuesFromForm as the text getString gives |
| Forms.CursorPlainField | collect_app/src/main/java/org/odk/collect/android/provider/FormsProvider.java:433-451 | each plain text field of the cursor Form is the cell's getString |
| Forms.PlainCell | collect_app/src/main/java/org/odk/collect/android/provider/FormsProvider.java:454-472 | getValuesFromForm puts each plain text field under its column |
| Selections.MatchedIsPerRow | collect_app/src/main/java/org/odk/collect/android/provider/FormsProvider.java:279-281 | whether the WHERE selects a row depends on that row alone: removing rows or changing others leaves the rest of the selection as it was, and a null WHERE selects every row |
| Selections.PrepareWhereArgs | collect_app/src/main/java/org/odk/collect/android/provider/FormsProvider.java:402-412 | a fresh array holding the form id followed by the caller's arguments |
| Selections.CompoundWithPreparedArgs | collect_app/src/main/java/org/odk/collect/android/provider/FormsProvider.java:373-379 | `_ID=? AND (where)` with the prepared arguments selects a row exactly when its id is the one the URI spells and the caller's WHERE selects it |
| SqlOrder.TextLeReflexive | collect_app/src/main/java/org/odk/collect/android/provider/FormsProvider.java:124-130 | the text order MAX(date) uses is reflexive |
| SqlOrder.TextLeTotal | collect_app/src/main/java/org/odk/collect/android/provider/FormsProvider.java:124-130 | the text order is total |
| SqlOrder.TextLeTransitive | collect_app/src/main/java/org/odk/collect/android/provider/FormsProvider.java:124-130 | the text order is transitive |
| SqlOrder.ValueLeReflexive | collect_app/src/main/java/org/odk/collect/android/provider/FormsProvider.java:124-130 | SQLite's cell order is reflexive |
| SqlOrder.ValueLeTotal | collect_app/src/main/java/org/odk/collect/android/provider/FormsProvider.java:124-130 | SQLite's cell order is total |
| SqlOrder.ValueLeTransitive | collect_app/src/main/java/org/odk/collect/android/provider/FormsProvider.java:124-130 | SQLite's cell order is transitive |
| Janitor.AfterDeleteFileOrDir | collect_app/src/main/java/org/odk/collect/android/provider/FormsProvider.java:248-266 | a missing path changes nothing; a file is removed; a directory loses exactly its deletable children and then goes itself exactly when all of them were deletable; nothing else changes |
| Janitor.SiblingsUnaffected | collect_app/src/main/java/org/odk/collect/android/provider/FormsProvider.java:255-260 | deleting one child of a directory does not change whether another child can be deleted, so the loop's order does not matter |
| Janitor.FlatDirectoryRemoved | collect_app/src/main/java/org/odk/collect/android/provider/FormsProvider.java:248-266 | a directory holding only files loses all of them and then goes itself |
| Janitor.NestedDirectorySurvives | collect_app/src/main/java/org/odk/collect/android/provider/FormsProvider.java:251-263 | a directory holding a non-empty subdirectory survives, and so does the subdirectory: File.delete does not recurse |
| Janitor.DeleteAll | collect_app/src/main/java/org/odk/collect/android/provider/FormsProvider.java:345-365 | a run of deleteFileOrDir calls only removes paths, and keeps every path that is neither named nor a child of a named path |
| Janitor.DeleteAllSnoc | collect_app/src/main/java/org/odk/collect/android/provider/FormsProvider.java:345-365 | one more deleteFileOrDir after a run is the longer run |
| Registry.PreparedRow | collect_app/src/main/java/org/odk/collect/android/provider/FormsProvider.java:176-211 | the row insert stores: the normalised relative path, the hash of the file whatever the caller gave, the caller's date/name/cache/media or their defaults (now, the file name, the hash-named cache, the media path), every other caller column unchanged |
| Registry.InsertKey | collect_app/src/main/java/org/odk/collect/android/provider/FormsProvider.java:235 | insertOrThrow uses the next rowid for an absent or NULL `_ID`, the caller's free integer `_ID` otherwise, and fails exactly for a taken or non-integer `_ID` |
| Registry.InsertedPathTaken | collect_app/src/main/java/org/odk/collect/android/provider/FormsProvider.java:215-233 | once a row with a form path is stored, the duplicate query finds that path, so a second insert of the same file is refused |
| Registry.UpdateDeletions | collect_app/src/main/java/org/odk/collect/android/provider/FormsProvider.java:341-365 | the old cache when JRCACHE_FILE_PATH is given, then when FORM_FILE_PATH is given the old form file if superseded and the old cache again, in that order and nothing else |
| Registry.Performed | collect_app/src/main/java/org/odk/collect/android/provider/FormsProvider.java:341-365 | the deletions carried out are the non-null prefix, stopping at the first null path |
| Registry.PerformedPrefix | collect_app/src/main/java/org/odk/collect/android/provider/FormsProvider.java:341-365 | any non-null prefix that ends at a null path or the end is the performed run |
| Registry.UpdatedValues | collect_app/src/main/java/org/odk/collect/android/provider/FormsProvider.java:336-371 | the written columns are the caller's without MD5_HASH and, when FORM_FILE_PATH changes, the new file's hash and the cache path named after it |
| Registry.HashIgnoredByDeletions | collect_app/src/main/java/org/odk/collect/android/provider/FormsProvider.java:336-339 | dropping a caller's MD5_HASH changes neither the deletions nor whether the update throws |
| Registry.HashIgnoredByWrite | collect_app/src/main/java/org/odk/collect/android/provider/FormsProvider.java:336-339 | dropping a caller's MD5_HASH changes neither the new form file nor the written columns |
| Registry.MetadataOnlyUpdate | collect_app/src/main/java/org/odk/collect/android/provider/FormsProvider.java:336-373 | an update naming neither file column deletes nothing, hands no null path to `new File`, and has the caller's values minus MD5_HASH to write |
| Registry.EmptyWrite | collect_app/src/main/java/org/odk/collect/android/provider/FormsProvider.java:336-379 | the columns handed to db.update are empty, which it refuses, exactly when the caller gave nothing but MD5_HASH, and such an update deletes no file |
| Registry.CaseOnlyRenameKeepsFile | collect_app/src/main/java/org/odk/collect/android/provider/FormsProvider.java:351-365 | a new form path equal to the old one ignoring case deletes only the old cache, keeping the form file |
| Registry.SupersedesFormFileCases | collect_app/src/main/java/org/odk/collect/android/provider/FormsProvider.java:351-359 | the old form file is superseded never without a new FORM_FILE_PATH, always when the new or the old path is null, otherwise exactly when the paths differ ignoring case, and never for the same path |
| Registry.MergedValues | collect_app/src/main/java/org/odk/collect/android/provider/FormsProvider.java:312-315 | the merged values hold the patch's cells over the carried columns read from the row |
| Registry.SaveEach | collect_app/src/main/java/org/odk/collect/android/provider/FormsProvider.java:311-318 | each selected row is replaced by what saving it writes, the others are unchanged, no row appears or disappears |
| Registry.BulkSavedForm | collect_app/src/main/java/org/odk/collect/android/provider/FormsProvider.java:310-322 | the Form a bulk update saves keeps the row's id and (unless patched) hash and form path, and has a null date, a null cache path and deleted false unless the patch supplies them; a patched DATE or DELETED_DATE counts when getAsLong reads it as a number, text included |
| Registry.BulkTextDeletedDate | collect_app/src/main/java/org/odk/collect/android/provider/FormsProvider.java:316-318 | a bulk update whose DELETED_DATE is the decimal text of a long saves the form as deleted |
| Registry.MergedUncarried | collect_app/src/main/java/org/odk/collect/android/provider/FormsProvider.java:312-315 | DATE, JRCACHE_FILE_PATH and DELETED_DATE of the merged values come from the patch alone |
| Registry.MergedKeepsId | collect_app/src/main/java/org/odk/collect/android/provider/FormsProvider.java:312-316 | the merged values carry the row's own id |
| Registry.MergedHash | collect_app/src/main/java/org/odk/collect/android/provider/FormsProvider.java:312-316 | the merged hash is the patch's, else the stored one |
| Registry.MergedFormFile | collect_app/src/main/java/org/odk/collect/android/provider/FormsProvider.java:312-316 | the merged form path is the patch's, else the stored one |
| Registry.DeleteEach | collect_app/src/main/java/org/odk/collect/android/provider/FormsProvider.java:278-284 | exactly the selected rows are removed, and the files change as repository deletes of each selected id once, in some order, each seeing the row stored under its id |
| Registry.NewestScan | collect_app/src/main/java/org/odk/collect/android/provider/FormsProvider.java:118-132 | the view maps each form id to a stored row of that form id; a selected row takes over its group when the group is new, the group's best date is NULL, or its date is strictly greater |
| Registry.NewestScanIsNewest | collect_app/src/main/java/org/odk/collect/android/provider/FormsProvider.java:118-132 | a scan over all rows yields one row per form id among the selected rows, from the selected rows, with the greatest date of its group |
| Registry.NewestPrefix | collect_app/src/main/java/org/odk/collect/android/provider/FormsProvider.java:118-132 | after any prefix of the scan, the view holds only selected visited rows and covers every selected visited row with one no older |
| Registry.NewestReplaced | collect_app/src/main/java/org/odk/collect/android/provider/FormsProvider.java:118-132 | a row taking over its group (strictly newer, or over a NULL best date) keeps every earlier row covered |
| Provider.FormsProvider.DeleteFileOrDir | collect_app/src/main/java/org/odk/collect/android/provider/FormsProvider.java:248-266 | the filesystem becomes what AfterDeleteFileOrDir describes and the call is recorded |
| Provider.FormsProvider.Insert | collect_app/src/main/java/org/odk/collect/android/provider/FormsProvider.java:159-246 | unknown URI, missing or null form path, duplicate file and rejected `_ID` each fail with the table and the next rowid unchanged; otherwise the prepared row is stored under its rowid, the next rowid moves past it, and the id is returned when positive |
| Provider.FormsProvider.StoreNewRow | collect_app/src/main/java/org/odk/collect/android/provider/FormsProvider.java:215-242 | a taken form path fails as a duplicate with nothing stored; otherwise the row is stored under the insertOrThrow key and the next rowid moves past it, or a rejected key leaves table and next rowid unchanged |
| Provider.FormsProvider.Update | collect_app/src/main/java/org/odk/collect/android/provider/FormsProvider.java:302-399 | the collection URI updates the matched rows as UpdateAll does, reports their count and touches no file; a form URI does exactly what UpdateItem does; any other URI fails with nothing changed |
| Provider.FormsProvider.UpdateAll | collect_app/src/main/java/org/odk/collect/android/provider/FormsProvider.java:310-322 | every matched row becomes what saving its merged Form writes, every other row is unchanged, and the count is the number matched |
| Provider.FormsProvider.UpdateItem | collect_app/src/main/java/org/odk/collect/android/provider/FormsProvider.java:324-388 | a missing row changes nothing and counts 0; otherwise the deletions run in order, a null path throws with the row unchanged, an empty write is refused with the row unchanged, and the written columns land exactly when the compound WHERE selects the row |
| Provider.FormsProvider.WriteItem | collect_app/src/main/java/org/odk/collect/android/provider/FormsProvider.java:361-379 | an empty write is refused with nothing changed; otherwise the row gets the updated values and the count is 1 exactly when the caller's WHERE selects it, else nothing changes and the count is 0 |
| Provider.FormsProvider.DeleteInOrder | collect_app/src/main/java/org/odk/collect/android/provider/FormsProvider.java:341-365 | the deletions run in order up to the first null path, completing exactly when there is none |
| Provider.FormsProvider.Delete | collect_app/src/main/java/org/odk/collect/android/provider/FormsProvider.java:274-299 | the collection URI removes exactly the matched rows and reports their number; a form URI removes that row, hands its stored row to the repository delete and reports 1; any other URI fails with nothing changed |

## Left out

- Android plumbing is not modelled: content-resolver change notifications, Dagger injection, the cursor's notification URI and Timber logging. The ghost `janitorCalls` trace records every path handed to `deleteFileOrDir`, missing ones included. It does not mirror the logs, which name each child and name the path itself only when it exists.
- Calls into code outside this file are total functions of an `Env`, taken as given:
  - the StoragePathProvider conversions;
  - `FileUtils.getMd5Hash` and `FileUtils.constructMediaPath`;
  - `File.getAbsolutePath`, `File.getName` and `File.getParent`.

  Their own behaviour, including what they do with a null path, is not part of this model beyond "null in, null out".
- `FormsRepository` is not part of this model. `save` becomes the row it writes for a Form, and `delete` removes the row plus whatever file change `deleteFiles` describes, given the id and the row stored under it. Its query methods become `Matched`.
- The clock is a parameter (`now`) of insert.
- Rowids are modelled as never reused: `nextId` only grows. SQLite without AUTOINCREMENT hands out max(rowid)+1 and so may reuse the id of a deleted last row; the table's schema is not part of this model.
- A null `values` argument of `update` is not modelled (`Values` cannot be null). In the source it throws a NullPointerException at the `putAll` when a row matches, or when reading MD5_HASH once the single row exists.
- `synchronized` on insert and concurrency in general are left out: every operation runs alone.
- The `FormsDatabaseHelper == null` paths are left out: insert throwing and update returning 0.
- The collection and single-form `query` branches only pass through to the repository, so they are left out.
- Registry.NewestScan: the order in which SQLite visits rows is a parameter (`scan`), because which of several equal-date rows `MAX` keeps is SQLite's choice. The model also assumes the projection includes DATE, since bare columns follow the `MAX` row only then.
- Provider.FormsProvider.Update: requires that the caller's values hold no `_ID`. A patch carrying `_ID` would make the bulk update save a Form under another id, and the repository's handling of that is not part of this model.
- Provider.FormsProvider.UpdateAll: the same `_ID` restriction applies.
- Provider.FormsProvider.Delete: the resulting filesystem for the collection URI is stated only up to the order of the repository deletes, because the cursor's order is not modelled.
- Provider.FormsProvider.UpdateItem: the same `_ID` restriction applies. `db.update` with `_ID` among the values would move the row to another rowid, which the model does not capture.
- Provider.FormsProvider.WriteItem: the same `_ID` restriction applies.
- Provider.FormsProvider.UpdateItem: removing MD5_HASH from the caller's ContentValues object is a visible side effect on the caller. Aliasing of that object is not modelled.
- SQLite column affinity is not modelled: a cell keeps the kind it was given, so numeric text stays text in DATE and DELETED_DATE, and an `_ID` given as numeric text is refused by `InsertKey` where SQLite would convert it and store the row under that rowid. `Long` overflow of numbers and a 64-bit rowid limit are not modelled either; integers are unbounded, and only `Long.valueOf` checks the long range.
- Columns.CursorLong: a TEXT cell reads as 0. SQLite's `getLong` would read the text's leading integer. With column affinity, numeric text would already have been stored as a number.
- Columns.ParseLong: only ASCII digits are accepted. Java's `Long.valueOf` also accepts other Unicode decimal digits.
- Case folding covers ASCII letters only. Java's full Unicode `equalsIgnoreCase` is not modelled.
- WHERE clauses are opaque predicates over a cursor row and the bound arguments. SQL parsing and bind-count errors are left out.
