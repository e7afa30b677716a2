/** What the provider's mutations compute, as functions of the old row and the
    caller's values: the row insert stores, the files a single-form update
    deletes and the columns it writes, the Form a bulk update saves, and the
    newest-by-form-id view. */
module Registry {
  import opened Columns
  import opened Forms
  import opened Selections
  import opened Janitor
  import opened SqlOrder

  /** FormsRepository, taken as given: the row it stores for a saved Form, and
      what its delete(id) does to the filesystem, given the row stored under id
      (None when there is none). */
  datatype Repository = Repository(saveRow: Form -> Values,
                                   deleteFiles: (FileSystem, int, Option<Values>) -> FileSystem)

  /** The row stored under id, if any. */
  function Stored(rows: map<int, Values>, id: int): Option<Values>
  {
    if id in rows then Some(rows[id]) else None
  }

  // ---------------------------------------------------------------- insert

  /** The caller gave a non-null FORM_FILE_PATH. */
  predicate HasFormFile(values: Values)
  {
    StringOf(values, FormFilePath).Some?
  }

  /** The form definition file insert works on: the caller's path made absolute. */
  function InsertFile(env: Env, values: Values): string
    requires HasFormFile(values)
  {
    env.absoluteFormPath(StringOf(values, FormFilePath).value)
  }

  /** The stored (relative) form path insert writes and checks for duplicates. */
  function InsertRelativePath(env: Env, values: Values): string
    requires HasFormFile(values)
  {
    env.relativeFormPath(env.normalize(InsertFile(env, values)))
  }

  /** The values insert hands to the database. */
  function PreparedRow(env: Env, values: Values, now: int): (r: Values)
    requires HasFormFile(values)
    ensures r.Keys == values.Keys + {FormFilePath, Date, DisplayName, Md5Hash, JrCacheFilePath, FormMediaPath}
    ensures r[FormFilePath] == Text(InsertRelativePath(env, values))
    ensures r[Md5Hash] == Text(env.md5(InsertFile(env, values)))
    ensures r[Date] == if Date in values then values[Date] else Num(now)
    ensures r[DisplayName] ==
              if DisplayName in values then values[DisplayName]
              else Text(env.fileName(InsertFile(env, values)))
    ensures r[JrCacheFilePath] ==
              if JrCacheFilePath in values then values[JrCacheFilePath]
              else Text(env.relativeCachePath(env.md5(InsertFile(env, values)) + ".formdef"))
    ensures r[FormMediaPath] ==
              if FormMediaPath in values then values[FormMediaPath]
              else Text(env.relativeFormPath(env.mediaPath(env.normalize(InsertFile(env, values)))))
    ensures forall c :: c in values && c != FormFilePath && c != Md5Hash ==> r[c] == values[c]
  {
    var file := InsertFile(env, values);
    var path := env.normalize(file);
    var md5 := env.md5(file);
    Completed(values, env.relativeFormPath(path), now, env.fileName(file), md5,
              env.relativeCachePath(md5 + ".formdef"), env.relativeFormPath(env.mediaPath(path)))
  }

  /** The caller's values with the form path and hash replaced and the date,
      display name, cache path and media path filled in where absent. */
  function Completed(values: Values, relative: string, now: int, name: string, md5: string,
                     cache: string, media: string): (r: Values)
    ensures r.Keys == values.Keys + {FormFilePath, Date, DisplayName, Md5Hash, JrCacheFilePath, FormMediaPath}
    ensures r[FormFilePath] == Text(relative) && r[Md5Hash] == Text(md5)
    ensures r[Date] == if Date in values then values[Date] else Num(now)
    ensures r[DisplayName] == if DisplayName in values then values[DisplayName] else Text(name)
    ensures r[JrCacheFilePath] == if JrCacheFilePath in values then values[JrCacheFilePath] else Text(cache)
    ensures r[FormMediaPath] == if FormMediaPath in values then values[FormMediaPath] else Text(media)
    ensures forall c :: c in values && c != FormFilePath && c != Md5Hash ==> r[c] == values[c]
  {
    var v := values[FormFilePath := Text(relative)];
    var v := if Date in v then v else v[Date := Num(now)];
    var v := if DisplayName in v then v else v[DisplayName := Text(name)];
    var v := v[Md5Hash := Text(md5)];
    var v := if JrCacheFilePath in v then v else v[JrCacheFilePath := Text(cache)];
    if FormMediaPath in v then v else v[FormMediaPath := Text(media)]
  }

  /** Some stored row has this form path (deleted rows included). */
  predicate PathTaken(rows: map<int, Values>, relative: string)
  {
    exists k :: k in rows && FormFilePath in rows[k] && rows[k][FormFilePath] == Text(relative)
  }

  /** Once a row with a form path is stored, that path is taken: a second
      insert of the same form file is refused, whatever becomes of the row's
      other columns. */
  lemma InsertedPathTaken(rows: map<int, Values>, k: int, row: Values, relative: string)
    requires FormFilePath in row && row[FormFilePath] == Text(relative)
    ensures PathTaken(rows[k := row - {Id}], relative)
  {
    assert (rows[k := row - {Id}])[k][FormFilePath] == Text(relative);
  }

  /** The rowid insertOrThrow gives the row: the caller's _ID when it is a free
      integer, the next id when it is absent or NULL, a failure otherwise. */
  function InsertKey(rows: map<int, Values>, values: Values, nextId: int): (r: Result<int>)
    ensures r.Ok? && (Id !in values || values[Id] == Null) ==> r.value == nextId
    ensures r.Ok? && Id in values && values[Id] != Null ==> values[Id] == Num(r.value) && r.value !in rows
    ensures r.Err? <==> Id in values && values[Id] != Null && !(values[Id].Num? && values[Id].n !in rows)
    ensures r.Err? ==> r.error == ConstraintFailed
  {
    if Id !in values || values[Id] == Null then Ok(nextId)
    else if values[Id].Num? && values[Id].n !in rows then Ok(values[Id].n)
    else Err(ConstraintFailed)
  }

  // ------------------------------------------------------ single-form update

  /** The old cache file, absolute (null if the row has none). */
  function OldCacheFile(env: Env, row: Values): Option<string>
  {
    Lift(env.absoluteCachePath, StringOf(row, JrCacheFilePath))
  }

  /** The old form file, absolute. */
  function OldFormFile(env: Env, row: Values): Option<string>
  {
    Lift(env.absoluteFormPath, StringOf(row, FormFilePath))
  }

  /** The new form file, absolute. */
  function NewFormFile(env: Env, values: Values): Option<string>
  {
    Lift(env.absoluteFormPath, StringOf(values, FormFilePath))
  }

  /** The update replaces the form file: the new path is null or differs from
      the old one ignoring case. */
  predicate SupersedesFormFile(env: Env, row: Values, values: Values)
  {
    FormFilePath in values &&
    (NewFormFile(env, values).None? || !EqualsIgnoreCase(NewFormFile(env, values).value, OldFormFile(env, row)))
  }

  /** When the update replaces the form file: never without a new FORM_FILE_PATH,
      always for a null new path or a null old one, never for the same path,
      and never for a new path equal to the old one up to letter case. */
  lemma SupersedesFormFileCases(env: Env, row: Values, values: Values)
    ensures FormFilePath !in values ==> !SupersedesFormFile(env, row, values)
    ensures FormFilePath in values && NewFormFile(env, values).None? ==> SupersedesFormFile(env, row, values)
    ensures FormFilePath in values && NewFormFile(env, values).Some? && OldFormFile(env, row).None? ==>
              SupersedesFormFile(env, row, values)
    ensures FormFilePath in values && NewFormFile(env, values).Some? && OldFormFile(env, row).Some? ==>
              (SupersedesFormFile(env, row, values) <==>
               !EqualsIgnoreCase(NewFormFile(env, values).value, OldFormFile(env, row)))
    ensures NewFormFile(env, values).Some? && NewFormFile(env, values) == OldFormFile(env, row) ==>
              !SupersedesFormFile(env, row, values)
  {
    if NewFormFile(env, values).Some? {
      EqualsIgnoreCaseProperties(NewFormFile(env, values).value, NewFormFile(env, values).value);
    }
  }

  /** The deleteFileOrDir calls of a single-form update, in order (None is a
      null path, on which `new File` throws). */
  function UpdateDeletions(env: Env, row: Values, values: Values): (ds: seq<Option<string>>)
    ensures |ds| == (if JrCacheFilePath in values then 1 else 0) + (if FormFilePath in values then 1 else 0)
                    + (if SupersedesFormFile(env, row, values) then 1 else 0)
    ensures JrCacheFilePath in values ==> ds[0] == OldCacheFile(env, row)
    ensures FormFilePath in values ==> ds[|ds| - 1] == OldCacheFile(env, row)
    ensures SupersedesFormFile(env, row, values) ==> ds[|ds| - 2] == OldFormFile(env, row)
    ensures forall i :: 0 <= i < |ds| ==> ds[i] in {OldCacheFile(env, row), OldFormFile(env, row)}
  {
    (if JrCacheFilePath in values then [OldCacheFile(env, row)] else []) +
    (if FormFilePath in values then
       (if SupersedesFormFile(env, row, values) then [OldFormFile(env, row)] else []) + [OldCacheFile(env, row)]
     else [])
  }

  /** The paths of the deletions carried out before the first null one. */
  function Performed(ds: seq<Option<string>>): (ps: seq<string>)
    ensures |ps| <= |ds|
    ensures forall i :: 0 <= i < |ps| ==> ds[i] == Some(ps[i])
    ensures |ps| < |ds| ==> ds[|ps|] == None
    ensures None !in ds ==> |ps| == |ds|
  {
    if ds == [] || ds[0].None? then [] else [ds[0].value] + Performed(ds[1..])
  }

  /** Performed is exactly the run of non-null paths at the front. */
  lemma {:induction false} PerformedPrefix(ds: seq<Option<string>>, ps: seq<string>)
    requires |ps| <= |ds|
    requires forall i :: 0 <= i < |ps| ==> ds[i] == Some(ps[i])
    requires |ps| == |ds| || ds[|ps|] == None
    ensures Performed(ds) == ps
    decreases |ps|
  {
    if ps != [] {
      PerformedPrefix(ds[1..], ps[1..]);
    }
  }

  /** The update throws a NullPointerException: a null path reaches `new File`,
      either in a deletion or when hashing a null new form file. */
  predicate UpdateCrashes(env: Env, row: Values, values: Values)
  {
    None in UpdateDeletions(env, row, values) || (FormFilePath in values && NewFormFile(env, values).None?)
  }

  /** The columns the single-form update writes: the caller's values without
      MD5_HASH and, when the form path changes, a hash of the new file and the
      cache path named after it. */
  function UpdatedValues(env: Env, values: Values): (w: Values)
    requires FormFilePath in values ==> NewFormFile(env, values).Some?
    ensures Md5Hash in w <==> FormFilePath in values
    ensures FormFilePath in values ==>
              var md5 := env.md5(NewFormFile(env, values).value);
              w[Md5Hash] == Text(md5) && JrCacheFilePath in w && w[JrCacheFilePath] == Text(env.relativeCachePath(md5 + ".formdef"))
    ensures forall c :: c in values && c != Md5Hash && !(c == JrCacheFilePath && FormFilePath in values) ==>
              c in w && w[c] == values[c]
    ensures forall c :: c in w ==> c in values || c == Md5Hash || c == JrCacheFilePath
  {
    var v := values - {Md5Hash};
    if FormFilePath in values then
      var md5 := env.md5(NewFormFile(env, values).value);
      v[Md5Hash := Text(md5)][JrCacheFilePath := Text(env.relativeCachePath(md5 + ".formdef"))]
    else v
  }

  /** Dropping the caller's MD5_HASH first changes neither the deletions nor
      whether the update throws. */
  lemma HashIgnoredByDeletions(env: Env, row: Values, values: Values)
    ensures UpdateDeletions(env, row, values - {Md5Hash}) == UpdateDeletions(env, row, values)
    ensures UpdateCrashes(env, row, values - {Md5Hash}) == UpdateCrashes(env, row, values)
  {
    var v := values - {Md5Hash};
    assert StringOf(v, FormFilePath) == StringOf(values, FormFilePath);
    assert SupersedesFormFile(env, row, v) == SupersedesFormFile(env, row, values);
  }

  /** Dropping the caller's MD5_HASH first changes neither the new form file
      nor the columns written. */
  lemma HashIgnoredByWrite(env: Env, values: Values)
    ensures NewFormFile(env, values - {Md5Hash}) == NewFormFile(env, values)
    ensures (FormFilePath in values ==> NewFormFile(env, values).Some?) ==>
            UpdatedValues(env, values - {Md5Hash}) == UpdatedValues(env, values)
  {
    var v := values - {Md5Hash};
    assert StringOf(v, FormFilePath) == StringOf(values, FormFilePath);
    assert v - {Md5Hash} == values - {Md5Hash};
  }

  /** An update that names neither file column deletes nothing, hands no null
      path to `new File`, and writes the caller's values minus MD5_HASH. */
  lemma MetadataOnlyUpdate(env: Env, row: Values, values: Values)
    requires FormFilePath !in values && JrCacheFilePath !in values
    ensures UpdateDeletions(env, row, values) == []
    ensures !UpdateCrashes(env, row, values)
    ensures UpdatedValues(env, values) == values - {Md5Hash}
  {
  }

  /** The columns to write are empty, so db.update refuses them, exactly when
      the caller gave nothing but MD5_HASH; such an update deletes no file. */
  lemma EmptyWrite(env: Env, row: Values, values: Values)
    requires FormFilePath in values ==> NewFormFile(env, values).Some?
    ensures UpdatedValues(env, values) == map[] <==> values.Keys <= {Md5Hash}
    ensures values.Keys <= {Md5Hash} ==> UpdateDeletions(env, row, values) == [] && !UpdateCrashes(env, row, values)
  {
    if UpdatedValues(env, values) == map[] {
      forall c | c in values
        ensures c == Md5Hash
      {
        if c != Md5Hash {
          assert false;
        }
      }
    }
  }

  /** Renaming a form file only by case keeps the old file on disk. */
  lemma CaseOnlyRenameKeepsFile(env: Env, row: Values, values: Values)
    requires FormFilePath in values && JrCacheFilePath !in values
    requires NewFormFile(env, values).Some? && OldFormFile(env, row).Some?
    requires EqualsIgnoreCase(NewFormFile(env, values).value, OldFormFile(env, row))
    ensures UpdateDeletions(env, row, values) == [OldCacheFile(env, row)]
  {
  }

  // ------------------------------------------------------------- bulk update

  /** getValuesFromForm of the stored row with the caller's values put over it. */
  function MergedValues(env: Env, id: int, row: Values, patch: Values): (m: Values)
    ensures forall c :: c in patch ==> c in m && m[c] == patch[c]
    ensures forall c :: c !in patch && c in CarriedColumns ==>
              c in m && m[c] == ValuesFromForm(env, FormFromCursor(env, CursorRow(id, row)))[c]
    ensures forall c :: c in m <==> c in patch || c in CarriedColumns
  {
    ValuesFromForm(env, FormFromCursor(env, CursorRow(id, row))) + patch
  }

  /** The Form the bulk update saves for one matched row. */
  function SavedForm(env: Env, id: int, row: Values, patch: Values): Form
  {
    FormFromValues(env, MergedValues(env, id, row, patch))
  }

  /** The row the bulk update stores for stored row id k: what the repository
      writes when saving the merged Form. */
  function BulkRow(env: Env, repository: Repository, k: int, row: Values, patch: Values): Values
  {
    repository.saveRow(SavedForm(env, k, row, patch))
  }

  /** The cursor loop of the bulk update: each selected row in turn is replaced
      by what saving it writes; the others stay as they were. */
  method SaveEach(table: map<int, Values>, selected: set<int>, save: (int, Values) -> Values)
    returns (updated: map<int, Values>)
    requires selected <= table.Keys
    ensures updated.Keys == table.Keys
    ensures forall k :: k in selected ==> updated[k] == save(k, table[k])
    ensures forall k :: k in updated && k !in selected ==> updated[k] == table[k]
  {
    updated := table;
    var cursor := selected;
    while cursor != {}
      invariant cursor <= selected
      invariant updated.Keys == table.Keys
      invariant forall k :: k in selected && k !in cursor ==> updated[k] == save(k, table[k])
      invariant forall k :: k in updated && (k !in selected || k in cursor) ==> updated[k] == table[k]
      decreases cursor
    {
      SomeMember(cursor);
      var id :| id in cursor;
      updated := updated[id := save(id, updated[id])];
      cursor := cursor - {id};
    }
  }

  /** The bulk update keeps the row's id, recomputes no hash, keeps the form
      path and hash unless the patch gives them, and — because getValuesFromForm
      drops them — saves a null date, a null cache path and a live (not deleted)
      form unless the patch supplies DATE, JRCACHE_FILE_PATH or DELETED_DATE. */
  lemma BulkSavedForm(env: Env, id: int, row: Values, patch: Values)
    requires StoredPathsStable(env)
    requires Id !in patch
    ensures var f := SavedForm(env, id, row, patch);
      && f.id == Some(id)
      && f.md5Hash == (if Md5Hash in patch then StringOf(patch, Md5Hash) else StringOf(row, Md5Hash))
      && f.formFilePath == Lift(env.absoluteFormPath,
           if FormFilePath in patch then StringOf(patch, FormFilePath) else StringOf(row, FormFilePath))
      && f.date == LongOf(patch, Date)
      && f.jrCacheFilePath == Lift(env.absoluteCachePath, StringOf(patch, JrCacheFilePath))
      && (f.deleted <==> LongOf(patch, DeletedDate).Some?)
  {
    var m := MergedValues(env, id, row, patch);
    var f := FormFromValues(env, m);
    MergedKeepsId(env, id, row, patch);
    MergedHash(env, id, row, patch);
    MergedFormFile(env, id, row, patch);
    MergedUncarried(env, id, row, patch, Date);
    MergedUncarried(env, id, row, patch, JrCacheFilePath);
    MergedUncarried(env, id, row, patch, DeletedDate);
  }

  /** A DELETED_DATE the caller gives as the decimal text of a long marks the
      saved form deleted, as getAsLong parses it. */
  lemma BulkTextDeletedDate(env: Env, id: int, row: Values, patch: Values, n: int)
    requires Id !in patch
    requires LongMin <= n <= LongMax
    requires DeletedDate in patch && patch[DeletedDate] == Text(LongToString(n))
    ensures SavedForm(env, id, row, patch).deleted
  {
    MergedUncarried(env, id, row, patch, DeletedDate);
    ParseLongToString(n);
  }

  /** A column getValuesFromForm does not write comes from the patch alone. */
  lemma MergedUncarried(env: Env, id: int, row: Values, patch: Values, c: Column)
    requires c == Date || c == JrCacheFilePath || c == DeletedDate
    ensures LongOf(MergedValues(env, id, row, patch), c) == LongOf(patch, c)
    ensures StringOf(MergedValues(env, id, row, patch), c) == StringOf(patch, c)
  {
    assert c !in CarriedColumns;
    var m := MergedValues(env, id, row, patch);
    assert c in m <==> c in patch;
    SameCell(m, patch, c);
  }

  lemma SameCell(m: Values, n: Values, c: Column)
    requires c in m <==> c in n
    requires c in n ==> m[c] == n[c]
    ensures LongOf(m, c) == LongOf(n, c) && StringOf(m, c) == StringOf(n, c)
  {
  }

  lemma MergedKeepsId(env: Env, id: int, row: Values, patch: Values)
    requires Id !in patch
    ensures LongOf(MergedValues(env, id, row, patch), Id) == Some(id)
  {
    var f := FormFromCursor(env, CursorRow(id, row));
    assert ValuesFromForm(env, f)[Id] == LongValue(f.id);
  }

  lemma MergedHash(env: Env, id: int, row: Values, patch: Values)
    ensures StringOf(MergedValues(env, id, row, patch), Md5Hash) ==
            if Md5Hash in patch then StringOf(patch, Md5Hash) else StringOf(row, Md5Hash)
  {
    if Md5Hash !in patch {
      PlainCellCarried(env, id, row, Md5Hash);
    }
  }

  lemma MergedFormFile(env: Env, id: int, row: Values, patch: Values)
    requires StoredPathsStable(env)
    ensures StringOf(MergedValues(env, id, row, patch), FormFilePath) ==
            if FormFilePath in patch then StringOf(patch, FormFilePath) else StringOf(row, FormFilePath)
  {
    if FormFilePath !in patch {
      var r := CursorRow(id, row);
      var f := FormFromCursor(env, r);
      assert ValuesFromForm(env, f)[FormFilePath] == TextValue(Lift(env.relativeFormPath, f.formFilePath));
      CursorRowString(id, row, FormFilePath);
      if StringOf(row, FormFilePath).Some? {
        var p := StringOf(row, FormFilePath).value;
        assert env.relativeFormPath(env.absoluteFormPath(p)) == p;
      }
    }
  }

  // ------------------------------------------------------------------ delete

  /** The filesystem after FormsRepository.delete on each id of ids in turn,
      each seeing the row the table stored under it. */
  function DeleteFilesInOrder(fs: FileSystem, deleteFiles: (FileSystem, int, Option<Values>) -> FileSystem,
                              table: map<int, Values>, ids: seq<int>): FileSystem
    decreases |ids|
  {
    if ids == [] then fs
    else
      var id := ids[|ids| - 1];
      deleteFiles(DeleteFilesInOrder(fs, deleteFiles, table, ids[..|ids| - 1]), id, Stored(table, id))
  }

  /** No id occurs twice. */
  predicate Distinct(ids: seq<int>)
  {
    forall i, j :: 0 <= i < j < |ids| ==> ids[i] != ids[j]
  }

  /** The cursor loop of the collection delete: FormsRepository.delete on every
      selected row, in the cursor's order, which removes the row and its files. */
  method DeleteEach(table: map<int, Values>, fs: FileSystem, selected: set<int>,
                    deleteFiles: (FileSystem, int, Option<Values>) -> FileSystem)
    returns (remaining: map<int, Values>, after: FileSystem, ghost order: seq<int>)
    ensures remaining == table - selected
    ensures forall k :: k in order <==> k in selected
    ensures Distinct(order)
    ensures after == DeleteFilesInOrder(fs, deleteFiles, table, order)
  {
    remaining, after, order := table, fs, [];
    var cursor := selected;
    while cursor != {}
      invariant cursor <= selected
      invariant forall k :: k in order <==> k in selected && k !in cursor
      invariant Distinct(order)
      invariant remaining == table - (selected - cursor)
      invariant after == DeleteFilesInOrder(fs, deleteFiles, table, order)
      decreases cursor
    {
      SomeMember(cursor);
      var id :| id in cursor;
      assert Stored(remaining, id) == Stored(table, id);
      after := deleteFiles(after, id, Stored(remaining, id));
      remaining := remaining - {id};
      assert (order + [id])[..|order|] == order;
      order := order + [id];
      cursor := cursor - {id};
      assert remaining == table - (selected - cursor);
    }
  }

  // ----------------------------------------------------- newest-by-form-id

  /** The GROUP BY key: the row's JR_FORM_ID (NULL forms one group). */
  function GroupKey(row: Values): Value
  {
    if JrFormId in row then row[JrFormId] else Null
  }

  /** The row's DATE cell. */
  function DateCell(row: Values): Value
  {
    if Date in row then row[Date] else Null
  }

  /** view holds one row per JR_FORM_ID among the selected rows, and that row
      carries the greatest DATE of its group (which one among equal dates is
      not determined). */
  ghost predicate IsNewestView(rows: map<int, Values>, selected: set<int>, view: map<Value, int>)
    requires selected <= rows.Keys
  {
    && (forall g :: g in view ==> view[g] in selected && GroupKey(rows[view[g]]) == g)
    && (forall k :: k in selected ==>
          GroupKey(rows[k]) in view && ValueLe(DateCell(rows[k]), DateCell(rows[view[GroupKey(rows[k])]])))
  }

  /** The WHERE selects stored row k. */
  predicate Picked(rows: map<int, Values>, where: Option<Selection>, args: seq<string>, k: int)
    requires k in rows
  {
    Selects(where, CursorRow(k, rows[k]), args)
  }

  /** Row k's group is in view, under a row whose DATE is no earlier than k's. */
  predicate Covered(rows: map<int, Values>, view: map<Value, int>, k: int)
    requires k in rows
    requires forall g :: g in view ==> view[g] in rows
  {
    GroupKey(rows[k]) in view && ValueLe(DateCell(rows[k]), DateCell(rows[view[GroupKey(rows[k])]]))
  }

  /** Row k takes over group g of the view: the group is new, its best DATE so
      far is NULL, or k's DATE is strictly greater. */
  predicate Replaces(rows: map<int, Values>, view: map<Value, int>, g: Value, k: int)
    requires k in rows
    requires forall h :: h in view ==> view[h] in rows
  {
    g !in view || DateCell(rows[view[g]]) == Null || !ValueLe(DateCell(rows[k]), DateCell(rows[view[g]]))
  }

  /** GROUP BY JR_FORM_ID with MAX(date), SQLite visiting the table's rows in
      the order scan lists them. Among the rows the WHERE selects, each group
      keeps the first row met with its greatest non-NULL DATE; while every DATE
      met in the group is NULL, each row met takes the group over. */
  function NewestScan(rows: map<int, Values>, where: Option<Selection>, args: seq<string>,
                      scan: seq<int>): (view: map<Value, int>)
    requires forall i :: 0 <= i < |scan| ==> scan[i] in rows
    ensures forall g :: g in view ==> view[g] in rows && GroupKey(rows[view[g]]) == g
    decreases |scan|
  {
    if scan == [] then map[]
    else
      var view := NewestScan(rows, where, args, scan[..|scan| - 1]);
      var k := scan[|scan| - 1];
      if !Picked(rows, where, args, k) then view
      else
        var g := GroupKey(rows[k]);
        if Replaces(rows, view, g, k) then view[g := k] else view
  }

  /** A scan that visits every stored row yields the newest-by-form-id view of
      the rows the WHERE selects. */
  lemma NewestScanIsNewest(rows: map<int, Values>, where: Option<Selection>,
                           args: seq<string>, scan: seq<int>)
    requires forall i :: 0 <= i < |scan| ==> scan[i] in rows
    requires forall k :: k in rows ==> k in scan
    ensures IsNewestView(rows, Matched(rows, where, args), NewestScan(rows, where, args, scan))
  {
    var view := NewestScan(rows, where, args, scan);
    NewestPrefix(rows, where, args, scan);
    forall k | k in Matched(rows, where, args)
      ensures Covered(rows, view, k)
    {
      assert Picked(rows, where, args, k);
    }
  }

  /** The view after a prefix of the scan is the newest view of the selected
      rows that prefix visited. */
  lemma {:induction false} NewestPrefix(rows: map<int, Values>, where: Option<Selection>,
                                        args: seq<string>, scan: seq<int>)
    requires forall i :: 0 <= i < |scan| ==> scan[i] in rows
    ensures var view := NewestScan(rows, where, args, scan);
      && (forall g :: g in view ==> view[g] in scan && Picked(rows, where, args, view[g]))
      && (forall k :: k in scan && Picked(rows, where, args, k) ==> Covered(rows, view, k))
    decreases |scan|
  {
    if scan != [] {
      var prefix := scan[..|scan| - 1];
      var last := scan[|scan| - 1];
      assert scan == prefix + [last];
      NewestPrefix(rows, where, args, prefix);
      var before := NewestScan(rows, where, args, prefix);
      var view := NewestScan(rows, where, args, scan);
      if !Picked(rows, where, args, last) {
        assert view == before;
        forall k | k in scan && Picked(rows, where, args, k)
          ensures Covered(rows, view, k)
        {
          assert k in prefix;
        }
      } else {
        var g := GroupKey(rows[last]);
        if Replaces(rows, before, g, last) {
          NewestReplaced(rows, where, args, prefix, last);
        } else {
          assert view == before;
          forall k | k in scan && Picked(rows, where, args, k)
            ensures Covered(rows, view, k)
          {
            if k != last {
              assert k in prefix;
            }
          }
        }
      }
    }
  }

  /** The step where the row just visited becomes its group's newest. */
  lemma NewestReplaced(rows: map<int, Values>, where: Option<Selection>, args: seq<string>,
                       prefix: seq<int>, last: int)
    requires forall i :: 0 <= i < |prefix| ==> prefix[i] in rows
    requires last in rows && Picked(rows, where, args, last)
    requires var before := NewestScan(rows, where, args, prefix);
      && (forall g :: g in before ==> before[g] in prefix && Picked(rows, where, args, before[g]))
      && (forall k :: k in prefix && Picked(rows, where, args, k) ==> Covered(rows, before, k))
    requires Replaces(rows, NewestScan(rows, where, args, prefix), GroupKey(rows[last]), last)
    ensures var view := NewestScan(rows, where, args, prefix + [last]);
      && (forall g :: g in view ==> view[g] in prefix + [last] && Picked(rows, where, args, view[g]))
      && (forall k :: k in prefix + [last] && Picked(rows, where, args, k) ==> Covered(rows, view, k))
  {
    var scan := prefix + [last];
    assert scan[..|scan| - 1] == prefix;
    var before := NewestScan(rows, where, args, prefix);
    var g := GroupKey(rows[last]);
    var d := DateCell(rows[last]);
    var view := before[g := last];
    assert NewestScan(rows, where, args, scan) == view;
    ValueLeReflexive(d);
    forall k | k in scan && Picked(rows, where, args, k)
      ensures Covered(rows, view, k)
    {
      if k != last {
        assert k in prefix;
        assert Covered(rows, before, k);
        if GroupKey(rows[k]) == g {
          ValueLeTotal(d, DateCell(rows[before[g]]));
          ValueLeTransitive(DateCell(rows[k]), DateCell(rows[before[g]]), d);
        }
      }
    }
  }
}
