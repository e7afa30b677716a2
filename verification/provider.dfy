/** FormsProvider: the forms table, the files it points at, and the
    provider's insert, update, delete and deleteFileOrDir (the newest-by-form-id
    view it queries is Registry.NewestScan). */
module Provider {
  import opened Columns
  import opened Uris
  import opened Forms
  import opened Selections
  import opened Janitor
  import opened SqlOrder
  import opened Registry

  class FormsProvider {
    const env: Env
    const uris: UriTable
    const repository: Repository

    /** The forms table: row id to the row's cells. */
    var rows: map<int, Values>
    /** The files and directories on disk. */
    var fs: FileSystem
    /** The rowid the next row inserted without an _ID receives (rowids are
        never reused here). */
    var nextId: int
    /** The paths deleteFileOrDir has been called on, oldest first. */
    ghost var janitorCalls: seq<string>

    /** Every row id is below the next one to be assigned, which is positive. */
    ghost predicate Valid()
      reads this
    {
      nextId > 0 && forall k :: k in rows ==> k < nextId
    }

    constructor (env: Env, uris: UriTable, repository: Repository, fs: FileSystem)
      ensures Valid()
      ensures this.env == env && this.uris == uris && this.repository == repository
      ensures rows == map[] && this.fs == fs && nextId == 1 && janitorCalls == []
    {
      this.env := env;
      this.uris := uris;
      this.repository := repository;
      this.fs := fs;
      rows := map[];
      nextId := 1;
      janitorCalls := [];
    }

    /** deleteFileOrDir: best-effort removal of a file, or of a directory's
        immediate children and then the directory. */
    method DeleteFileOrDir(fileName: string)
      modifies this`fs, this`janitorCalls
      ensures fs == AfterDeleteFileOrDir(old(fs), env.parent, fileName)
      ensures janitorCalls == old(janitorCalls) + [fileName]
    {
      janitorCalls := janitorCalls + [fileName];
      if fileName in fs {
        if fs[fileName] == Dir {
          var files := Children(fs, env.parent, fileName);
          ghost var done: set<string> := {};
          while files != {}
            invariant files + done == Children(old(fs), env.parent, fileName)
            invariant files !! done
            invariant janitorCalls == old(janitorCalls) + [fileName]
            invariant fs == old(fs) - (set c | c in done && Deletable(old(fs), env.parent, c))
            decreases files
          {
            var f :| f in files;
            ghost var gone := set c | c in done && Deletable(old(fs), env.parent, c);
            SiblingsUnaffected(old(fs), env.parent, fileName, gone, f);
            if Deletable(fs, env.parent, f) {
              fs := fs - {f};
            }
            files := files - {f};
            done := done + {f};
          }
        }
        if Deletable(fs, env.parent, fileName) {
          fs := fs - {fileName};
        }
      }
    }

    /** insert: a new row for a form definition file. */
    method Insert(uri: Uri, initialValues: Option<Values>, now: int) returns (r: Result<int>)
      requires Valid()
      modifies this`rows, this`nextId
      ensures Valid()
      ensures UriMatch(uris, uri) != Forms ==>
                r == Err(UnknownUri) && rows == old(rows) && nextId == old(nextId)
      ensures UriMatch(uris, uri) == Forms ==>
        var values := if initialValues.Some? then initialValues.value else map[];
        && (FormFilePath !in values ==>
              r == Err(MissingFormFilePath) && rows == old(rows) && nextId == old(nextId))
        && (FormFilePath in values && !HasFormFile(values) ==>
              r == Err(NullPointer) && rows == old(rows) && nextId == old(nextId))
        && (HasFormFile(values) && PathTaken(old(rows), InsertRelativePath(env, values)) ==>
              r == Err(DuplicateFormFile) && rows == old(rows) && nextId == old(nextId))
        && (HasFormFile(values) && !PathTaken(old(rows), InsertRelativePath(env, values)) ==>
              var row := PreparedRow(env, values, now);
              match InsertKey(old(rows), row, old(nextId))
              case Err(_) => r == Err(ConstraintFailed) && rows == old(rows) && nextId == old(nextId)
              case Ok(k) =>
                && rows == old(rows)[k := row - {Id}]
                && nextId == (if k + 1 > old(nextId) then k + 1 else old(nextId))
                && r == (if k > 0 then Ok(k) else Err(InsertFailed)))
    {
      if UriMatch(uris, uri) != Forms {
        return Err(UnknownUri);
      }
      var values := if initialValues.Some? then initialValues.value else map[];
      ghost var given := values;
      if FormFilePath !in values {
        return Err(MissingFormFilePath);
      }
      var requested := StringOf(values, FormFilePath);
      if requested.None? {
        return Err(NullPointer);
      }
      // normalise the file path: the requester is not trusted
      var form := env.absoluteFormPath(requested.value);
      var filePath := env.normalize(form);
      assert form == InsertFile(env, given);
      values := values[FormFilePath := Text(env.relativeFormPath(filePath))];
      ghost var step := values;
      if Date !in values {
        values := values[Date := Num(now)];
      }
      assert values == if Date in step then step else step[Date := Num(now)];
      step := values;
      if DisplayName !in values {
        values := values[DisplayName := Text(env.fileName(form))];
      }
      assert values == if DisplayName in step then step else step[DisplayName := Text(env.fileName(form))];
      step := values;
      // a caller-supplied hash is discarded
      if Md5Hash in values {
        values := values - {Md5Hash};
      }
      var md5 := env.md5(form);
      values := values[Md5Hash := Text(md5)];
      assert values == step[Md5Hash := Text(md5)];
      step := values;
      if JrCacheFilePath !in values {
        values := values[JrCacheFilePath := Text(env.relativeCachePath(md5 + ".formdef"))];
      }
      assert values == if JrCacheFilePath in step then step
                       else step[JrCacheFilePath := Text(env.relativeCachePath(md5 + ".formdef"))];
      step := values;
      if FormMediaPath !in values {
        values := values[FormMediaPath := Text(env.relativeFormPath(env.mediaPath(filePath)))];
      }
      assert values == if FormMediaPath in step then step
                       else step[FormMediaPath := Text(env.relativeFormPath(env.mediaPath(filePath)))];
      assert values == PreparedRow(env, given, now);
      r := StoreNewRow(values, env.relativeFormPath(filePath));
    }

    /** The end of insert: refuse a second row for the same form file, then
        insertOrThrow. */
    method StoreNewRow(values: Values, relative: string) returns (r: Result<int>)
      requires Valid()
      modifies this`rows, this`nextId
      ensures Valid()
      ensures PathTaken(old(rows), relative) ==>
                r == Err(DuplicateFormFile) && rows == old(rows) && nextId == old(nextId)
      ensures !PathTaken(old(rows), relative) ==>
        match InsertKey(old(rows), values, old(nextId))
        case Err(_) => r == Err(ConstraintFailed) && rows == old(rows) && nextId == old(nextId)
        case Ok(k) =>
          && rows == old(rows)[k := values - {Id}]
          && nextId == (if k + 1 > old(nextId) then k + 1 else old(nextId))
          && r == (if k > 0 then Ok(k) else Err(InsertFailed))
    {
      if exists k | k in rows :: FormFilePath in rows[k] && rows[k][FormFilePath] == Text(relative) {
        return Err(DuplicateFormFile);
      }
      var key := InsertKey(rows, values, nextId);
      if key.Err? {
        return Err(ConstraintFailed);
      }
      var rowId := key.value;
      rows := rows[rowId := values - {Id}];
      nextId := if rowId + 1 > nextId then rowId + 1 else nextId;
      if rowId > 0 {
        r := Ok(rowId);
      } else {
        r := Err(InsertFailed);
      }
    }

    /** What the collection update leaves in the table: every selected row
        replaced by the row saving its merged Form writes, the others as they were. */
    ghost predicate BulkUpdated(before: map<int, Values>, after: map<int, Values>,
                                selected: set<int>, values: Values)
    {
      && selected <= before.Keys
      && after.Keys == before.Keys
      && (forall k :: k in selected ==> after[k] == BulkRow(env, repository, k, before[k], values))
      && (forall k :: k in after && k !in selected ==> after[k] == before[k])
    }

    /** What the single-form update of row id does: nothing when the row is
        missing; otherwise the file deletions up to the first null path, then a
        NullPointerException, the refusal of an empty write, or the write under
        the compound WHERE. */
    ghost predicate ItemUpdated(id: int, values: Values, where: Option<Selection>, args: seq<string>,
                                before: map<int, Values>, fsBefore: FileSystem, callsBefore: seq<string>,
                                r: Result<int>, after: map<int, Values>, fsAfter: FileSystem, callsAfter: seq<string>)
    {
      if id !in before then
        r == Ok(0) && after == before && fsAfter == fsBefore && callsAfter == callsBefore
      else
        var row := CursorRow(id, before[id]);
        var performed := Performed(UpdateDeletions(env, row, values));
        && callsAfter == callsBefore + performed
        && fsAfter == DeleteAll(fsBefore, env.parent, performed)
        && (UpdateCrashes(env, row, values) ==> r == Err(NullPointer) && after == before)
        && (!UpdateCrashes(env, row, values) && UpdatedValues(env, values) == map[] ==>
              r == Err(EmptyValues) && after == before)
        && (!UpdateCrashes(env, row, values) && UpdatedValues(env, values) != map[] && Selects(where, row, args) ==>
              r == Ok(1) && after == before[id := before[id] + UpdatedValues(env, values)])
        && (!UpdateCrashes(env, row, values) && UpdatedValues(env, values) != map[] && !Selects(where, row, args) ==>
              r == Ok(0) && after == before)
    }

    /** update: the collection URI updates every row the WHERE selects, a
        single-form URI the one row it names; any other URI is refused. */
    method Update(uri: Uri, values: Values, where: Option<Selection>, whereArgs: array?<string>)
      returns (r: Result<int>)
      requires Valid()
      requires Id !in values
      modifies this`rows, this`fs, this`janitorCalls
      ensures Valid()
      ensures UriMatch(uris, uri) in {NoMatch, NewestByFormId} ==>
                r == Err(UnknownUri) && rows == old(rows) && fs == old(fs) && janitorCalls == old(janitorCalls)
      ensures UriMatch(uris, uri) == Forms ==>
                var selected := Matched(old(rows), where, ArgsOfArray(whereArgs));
                && r == Ok(|selected|)
                && BulkUpdated(old(rows), rows, selected, values)
                && fs == old(fs) && janitorCalls == old(janitorCalls)
      ensures UriMatch(uris, uri).FormItem? ==>
                ItemUpdated(UriMatch(uris, uri).id, values, where, ArgsOfArray(whereArgs),
                            old(rows), old(fs), old(janitorCalls), r, rows, fs, janitorCalls)
    {
      match UriMatch(uris, uri)
      case Forms =>
        ghost var files, calls := fs, janitorCalls;
        var count := UpdateAll(values, where, whereArgs);
        assert fs == files && janitorCalls == calls;
        r := Ok(count);
      case FormItem(id) =>
        r := UpdateItem(uri.segments[1], id, values, where, whereArgs);
      case _ =>
        r := Err(UnknownUri);
    }

    /** delete: the collection URI deletes every row the WHERE selects, with
        its files, and counts them; a single-form URI deletes the row it names
        and counts 1 whether or not it existed; any other URI is refused. */
    method Delete(uri: Uri, where: Option<Selection>, whereArgs: array?<string>) returns (r: Result<int>)
      requires Valid()
      modifies this`rows, this`fs
      ensures Valid()
      ensures UriMatch(uris, uri) in {NoMatch, NewestByFormId} ==>
                r == Err(UnknownUri) && rows == old(rows) && fs == old(fs)
      ensures UriMatch(uris, uri) == Forms ==>
                var selected := Matched(old(rows), where, ArgsOfArray(whereArgs));
                && r == Ok(|selected|)
                && rows == old(rows) - selected
                && exists order :: (forall k :: k in order <==> k in selected) && Distinct(order) &&
                                   fs == DeleteFilesInOrder(old(fs), repository.deleteFiles, old(rows), order)
      ensures UriMatch(uris, uri).FormItem? ==>
                var id := UriMatch(uris, uri).id;
                && r == Ok(1) && rows == old(rows) - {id}
                && fs == repository.deleteFiles(old(fs), id, Stored(old(rows), id))
    {
      match UriMatch(uris, uri)
      case Forms =>
        var selected := Matched(rows, where, ArgsOfArray(whereArgs));
        ghost var order;
        rows, fs, order := DeleteEach(rows, fs, selected, repository.deleteFiles);
        r := Ok(|selected|);
      case FormItem(id) =>
        fs := repository.deleteFiles(fs, id, Stored(rows, id));
        rows := rows - {id};
        r := Ok(1);
      case _ =>
        r := Err(UnknownUri);
    }

    /** update, collection branch: every selected row is read into a Form,
        turned back into values, overlaid with the caller's values and saved. */
    method UpdateAll(values: Values, where: Option<Selection>, whereArgs: array?<string>) returns (count: int)
      requires Valid()
      requires Id !in values
      modifies this`rows
      ensures Valid()
      ensures var selected := Matched(old(rows), where, ArgsOfArray(whereArgs));
        count == |selected| && BulkUpdated(old(rows), rows, selected, values)
    {
      var selected := Matched(rows, where, ArgsOfArray(whereArgs));
      rows := SaveEach(rows, selected, (k, row) => BulkRow(env, repository, k, row, values));
      count := |selected|;
    }

    /** update, single-form branch: delete the superseded files, rehash a new
        form file, and write the caller's columns under the compound WHERE. */
    method UpdateItem(formId: string, id: nat, values: Values, where: Option<Selection>,
                      whereArgs: array?<string>) returns (r: Result<int>)
      requires Valid()
      requires IsDigits(formId) && ParseDigits(formId) == id
      requires Id !in values
      modifies this`rows, this`fs, this`janitorCalls
      ensures Valid()
      ensures ItemUpdated(id, values, where, ArgsOfArray(whereArgs),
                          old(rows), old(fs), old(janitorCalls), r, rows, fs, janitorCalls)
    {
      if id !in rows {
        // the row to update does not exist: nothing is written
        return Ok(0);
      }
      var row := CursorRow(id, rows[id]);
      var v := values;
      if Md5Hash in v {
        v := v - {Md5Hash};
      }
      assert v == values - {Md5Hash};
      HashIgnoredByDeletions(env, row, values);
      HashIgnoredByWrite(env, values);
      // the cache goes before the form file
      var deleted := DeleteInOrder(UpdateDeletions(env, row, v));
      if !deleted {
        return Err(NullPointer);
      }
      if FormFilePath in v && NewFormFile(env, v).None? {
        // hashing `new File(null)` throws
        return Err(NullPointer);
      }
      r := WriteItem(formId, id, v, where, whereArgs);
    }

    /** The end of the single-form update: rehash a new form file, then
        db.update under `_ID=? AND (where)` with the prepared arguments. */
    method WriteItem(formId: string, id: nat, values: Values, where: Option<Selection>,
                     whereArgs: array?<string>) returns (r: Result<int>)
      requires IsDigits(formId) && ParseDigits(formId) == id && id in rows
      requires Md5Hash !in values && Id !in values
      requires FormFilePath in values ==> NewFormFile(env, values).Some?
      requires Valid()
      modifies this`rows
      ensures Valid()
      ensures UpdatedValues(env, values) == map[] ==> r == Err(EmptyValues) && rows == old(rows)
      ensures var row := CursorRow(id, old(rows)[id]);
        && (UpdatedValues(env, values) != map[] && Selects(where, row, ArgsOfArray(whereArgs)) ==>
              r == Ok(1) && rows == old(rows)[id := old(rows)[id] + UpdatedValues(env, values)])
        && (UpdatedValues(env, values) != map[] && !Selects(where, row, ArgsOfArray(whereArgs)) ==>
              r == Ok(0) && rows == old(rows))
    {
      var v := values;
      if FormFilePath in v {
        // the form file changes: hash it and name the cache after the hash
        var formFile := NewFormFile(env, v);
        var newMd5 := env.md5(formFile.value);
        v := v[Md5Hash := Text(newMd5)];
        v := v[JrCacheFilePath := Text(env.relativeCachePath(newMd5 + ".formdef"))];
      }
      assert v == UpdatedValues(env, values);
      if v == map[] {
        // db.update refuses an empty set of columns
        return Err(EmptyValues);
      }
      var row := CursorRow(id, rows[id]);
      var args := PrepareWhereArgs(whereArgs, formId);
      CompoundWithPreparedArgs(id, row, where, ArgsOfArray(whereArgs), formId);
      if CompoundSelects(id, row, where, args[..]) {
        rows := rows[id := rows[id] + v];
        r := Ok(1);
      } else {
        r := Ok(0);
      }
    }

    /** The file deletions of a single-form update, carried out in order
        (UpdateDeletions says which paths and in what order); a null path stops
        them with false, as `new File(null)` throws. */
    method DeleteInOrder(ds: seq<Option<string>>) returns (completed: bool)
      modifies this`fs, this`janitorCalls
      ensures completed <==> None !in ds
      ensures janitorCalls == old(janitorCalls) + Performed(ds)
      ensures fs == DeleteAll(old(fs), env.parent, Performed(ds))
    {
      ghost var done: seq<string> := [];
      for i := 0 to |ds|
        invariant |done| == i
        invariant forall j :: 0 <= j < i ==> ds[j] == Some(done[j])
        invariant janitorCalls == old(janitorCalls) + done
        invariant fs == DeleteAll(old(fs), env.parent, done)
      {
        if ds[i].None? {
          PerformedPrefix(ds, done);
          return false;
        }
        DeleteFileOrDir(ds[i].value);
        DeleteAllSnoc(old(fs), env.parent, done, ds[i].value);
        done := done + [ds[i].value];
      }
      PerformedPrefix(ds, done);
      completed := true;
    }
  }
}
