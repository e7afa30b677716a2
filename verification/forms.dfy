/** The Form record and the provider's conversions between a row, a Form and
    a ContentValues map (getFormFromCurrentCursorPosition, getValuesFromForm,
    getFormFromValues). */
module Forms {
  import opened Columns

  /** org.odk.collect.android.forms.Form as the builder fills it; paths are absolute. */
  datatype Form = Form(
    id: Option<int>,
    displayName: Option<string>,
    description: Option<string>,
    jrFormId: Option<string>,
    jrVersion: Option<string>,
    formFilePath: Option<string>,
    submissionUri: Option<string>,
    base64RsaPublicKey: Option<string>,
    md5Hash: Option<string>,
    date: Option<int>,
    jrCacheFilePath: Option<string>,
    formMediaPath: Option<string>,
    language: Option<string>,
    autoSend: Option<string>,
    autoDelete: Option<string>,
    geometryXpath: Option<string>,
    deleted: bool
  )

  /** The columns getValuesFromForm writes: every column but DATE,
      JRCACHE_FILE_PATH and DELETED_DATE. */
  const CarriedColumns: set<Column> :=
    {Id, DisplayName, Description, JrFormId, JrVersion, FormFilePath, SubmissionUri,
     Base64RsaPublicKey, Md5Hash, FormMediaPath, Language, AutoSend, AutoDelete, GeometryXpath}

  /** The carried columns that hold plain text (no path conversion). */
  predicate PlainText(c: Column)
  {
    match c
    case DisplayName | Description | JrFormId | JrVersion | SubmissionUri | Base64RsaPublicKey
       | Md5Hash | Language | AutoSend | AutoDelete | GeometryXpath => true
    case _ => false
  }

  /** getFormFromCurrentCursorPosition: a cursor row to a Form, stored paths
      made absolute, `deleted` set when DELETED_DATE is not NULL. */
  function FormFromCursor(env: Env, row: Values): (f: Form)
    ensures f.id == Some(CursorLong(row, Id))
    ensures f.date == Some(CursorLong(row, Date))
    ensures f.deleted <==> DeletedDate in row && row[DeletedDate] != Null
    ensures f.formFilePath == Lift(env.absoluteFormPath, StringOf(row, FormFilePath))
    ensures f.jrCacheFilePath == Lift(env.absoluteCachePath, StringOf(row, JrCacheFilePath))
    ensures f.formMediaPath == Lift(env.absoluteFormPath, StringOf(row, FormMediaPath))
  {
    Form(
      id := Some(CursorLong(row, Id)),
      displayName := StringOf(row, DisplayName),
      description := StringOf(row, Description),
      jrFormId := StringOf(row, JrFormId),
      jrVersion := StringOf(row, JrVersion),
      formFilePath := Lift(env.absoluteFormPath, StringOf(row, FormFilePath)),
      submissionUri := StringOf(row, SubmissionUri),
      base64RsaPublicKey := StringOf(row, Base64RsaPublicKey),
      md5Hash := StringOf(row, Md5Hash),
      date := Some(CursorLong(row, Date)),
      jrCacheFilePath := Lift(env.absoluteCachePath, StringOf(row, JrCacheFilePath)),
      formMediaPath := Lift(env.absoluteFormPath, StringOf(row, FormMediaPath)),
      language := StringOf(row, Language),
      autoSend := StringOf(row, AutoSend),
      autoDelete := StringOf(row, AutoDelete),
      geometryXpath := StringOf(row, GeometryXpath),
      deleted := !(DeletedDate !in row || row[DeletedDate] == Null)
    )
  }

  /** getValuesFromForm: exactly the carried columns, paths made relative. */
  function ValuesFromForm(env: Env, f: Form): (v: Values)
    ensures v.Keys == CarriedColumns
    ensures v[Id] == LongValue(f.id)
    ensures v[FormFilePath] == TextValue(Lift(env.relativeFormPath, f.formFilePath))
    ensures v[FormMediaPath] == TextValue(Lift(env.relativeFormPath, f.formMediaPath))
    ensures v[Md5Hash] == TextValue(f.md5Hash)
  {
    map c | c in CarriedColumns :: CarriedCell(env, f, c)
  }

  /** The cell getValuesFromForm puts under one carried column. */
  function CarriedCell(env: Env, f: Form, c: Column): Value
  {
    match c
    case Id => LongValue(f.id)
    case DisplayName => TextValue(f.displayName)
    case Description => TextValue(f.description)
    case JrFormId => TextValue(f.jrFormId)
    case JrVersion => TextValue(f.jrVersion)
    case FormFilePath => TextValue(Lift(env.relativeFormPath, f.formFilePath))
    case SubmissionUri => TextValue(f.submissionUri)
    case Base64RsaPublicKey => TextValue(f.base64RsaPublicKey)
    case Md5Hash => TextValue(f.md5Hash)
    case FormMediaPath => TextValue(Lift(env.relativeFormPath, f.formMediaPath))
    case Language => TextValue(f.language)
    case AutoSend => TextValue(f.autoSend)
    case AutoDelete => TextValue(f.autoDelete)
    case GeometryXpath => TextValue(f.geometryXpath)
    case _ => Null
  }

  /** getFormFromValues: a ContentValues map to a Form, stored paths made absolute. */
  function FormFromValues(env: Env, v: Values): (f: Form)
    ensures f.id == LongOf(v, Id) && f.date == LongOf(v, Date)
    ensures f.deleted <==> LongOf(v, DeletedDate).Some?
    ensures f.md5Hash == StringOf(v, Md5Hash)
    ensures f.formFilePath == Lift(env.absoluteFormPath, StringOf(v, FormFilePath))
    ensures f.jrCacheFilePath == Lift(env.absoluteCachePath, StringOf(v, JrCacheFilePath))
  {
    Form(
      id := LongOf(v, Id),
      displayName := StringOf(v, DisplayName),
      description := StringOf(v, Description),
      jrFormId := StringOf(v, JrFormId),
      jrVersion := StringOf(v, JrVersion),
      formFilePath := Lift(env.absoluteFormPath, StringOf(v, FormFilePath)),
      submissionUri := StringOf(v, SubmissionUri),
      base64RsaPublicKey := StringOf(v, Base64RsaPublicKey),
      md5Hash := StringOf(v, Md5Hash),
      date := LongOf(v, Date),
      jrCacheFilePath := Lift(env.absoluteCachePath, StringOf(v, JrCacheFilePath)),
      formMediaPath := Lift(env.absoluteFormPath, StringOf(v, FormMediaPath)),
      language := StringOf(v, Language),
      autoSend := StringOf(v, AutoSend),
      autoDelete := StringOf(v, AutoDelete),
      geometryXpath := StringOf(v, GeometryXpath),
      deleted := LongOf(v, DeletedDate).Some?
    )
  }

  /** A Form sent through getValuesFromForm and back through getFormFromValues
      comes back whole except for the three fields getValuesFromForm does not
      write: its date and cache path become null and it is no longer deleted. */
  lemma ValuesRoundTrip(env: Env, f: Form)
    requires FormPathsInverse(env)
    ensures FormFromValues(env, ValuesFromForm(env, f)) ==
            f.(date := None, jrCacheFilePath := None, deleted := false)
  {
    RoundTripPlainFields(env, f);
    RoundTripKeyFields(env, f);
    RoundTripSettingFields(env, f);
    RoundTripOtherFields(env, f);
  }

  /** The descriptive text fields come back unchanged. */
  lemma RoundTripPlainFields(env: Env, f: Form)
    ensures var g := FormFromValues(env, ValuesFromForm(env, f));
      && g.displayName == f.displayName && g.description == f.description
      && g.jrFormId == f.jrFormId && g.jrVersion == f.jrVersion
      && g.submissionUri == f.submissionUri
  {
    PlainString(env, f, DisplayName);
    PlainString(env, f, Description);
    PlainString(env, f, JrFormId);
    PlainString(env, f, JrVersion);
    PlainString(env, f, SubmissionUri);
  }

  /** The key, language and geometry fields come back unchanged. */
  lemma RoundTripKeyFields(env: Env, f: Form)
    ensures var g := FormFromValues(env, ValuesFromForm(env, f));
      && g.base64RsaPublicKey == f.base64RsaPublicKey && g.language == f.language
      && g.geometryXpath == f.geometryXpath
  {
    PlainString(env, f, Base64RsaPublicKey);
    PlainString(env, f, Language);
    PlainString(env, f, GeometryXpath);
  }

  /** The auto-send and auto-delete settings come back unchanged. */
  lemma RoundTripSettingFields(env: Env, f: Form)
    ensures var g := FormFromValues(env, ValuesFromForm(env, f));
      && g.autoSend == f.autoSend && g.autoDelete == f.autoDelete
  {
    PlainString(env, f, AutoSend);
    PlainString(env, f, AutoDelete);
  }

  /** The id, hash and paths come back; date, cache path and deleted do not. */
  lemma RoundTripOtherFields(env: Env, f: Form)
    requires FormPathsInverse(env)
    ensures var g := FormFromValues(env, ValuesFromForm(env, f));
      && g.id == f.id && g.md5Hash == f.md5Hash
      && g.formFilePath == f.formFilePath && g.formMediaPath == f.formMediaPath
      && g.date == None && g.jrCacheFilePath == None && !g.deleted
  {
    var v := ValuesFromForm(env, f);
    if f.formFilePath.Some? {
      assert env.absoluteFormPath(env.relativeFormPath(f.formFilePath.value)) == f.formFilePath.value;
    }
    if f.formMediaPath.Some? {
      assert env.absoluteFormPath(env.relativeFormPath(f.formMediaPath.value)) == f.formMediaPath.value;
    }
    TextRoundTrip(v, FormFilePath, Lift(env.relativeFormPath, f.formFilePath));
    TextRoundTrip(v, FormMediaPath, Lift(env.relativeFormPath, f.formMediaPath));
    TextRoundTrip(v, Md5Hash, f.md5Hash);
    UncarriedColumns();
  }

  /** The three columns getValuesFromForm leaves out. */
  lemma UncarriedColumns()
    ensures Date !in CarriedColumns && JrCacheFilePath !in CarriedColumns && DeletedDate !in CarriedColumns
  {
  }

  /** A text cell (or NULL) reads back as the string (or null) it was made from. */
  lemma TextRoundTrip(m: Values, c: Column, s: Option<string>)
    requires c in m && m[c] == TextValue(s)
    ensures StringOf(m, c) == s
  {
  }

  /** A plain text field survives getValuesFromForm and getFormFromValues. */
  lemma PlainString(env: Env, f: Form, c: Column)
    requires PlainText(c)
    ensures PlainField(FormFromValues(env, ValuesFromForm(env, f)), c) == PlainField(f, c)
  {
    var v := ValuesFromForm(env, f);
    PlainCell(env, f, c);
    TextRoundTrip(v, c, PlainField(f, c));
    ValuesPlainField(env, v, c);
  }

  lemma ValuesPlainField(env: Env, v: Values, c: Column)
    requires PlainText(c)
    ensures PlainField(FormFromValues(env, v), c) == StringOf(v, c)
  {
  }

  /** What the bulk update reads back from a stored row before overlaying the
      patch: the carried columns, the row id, each plain text cell as text (a
      number in decimal), and — when the path conversions are inverse on stored
      paths — the stored form file and media paths as they were. */
  lemma CursorValuesCarried(env: Env, id: int, row: Values)
    requires StoredPathsStable(env)
    ensures var v := ValuesFromForm(env, FormFromCursor(env, CursorRow(id, row)));
      && v.Keys == CarriedColumns
      && v[Id] == Num(id)
      && (forall c :: PlainText(c) ==> v[c] == TextValue(StringOf(row, c)))
      && v[FormFilePath] == TextValue(StringOf(row, FormFilePath))
      && v[FormMediaPath] == TextValue(StringOf(row, FormMediaPath))
  {
    var r := CursorRow(id, row);
    var f := FormFromCursor(env, r);
    var v := ValuesFromForm(env, f);
    forall c | PlainText(c)
      ensures v[c] == TextValue(StringOf(row, c))
    {
      PlainCellCarried(env, id, row, c);
    }
    CursorPathCells(env, id, row);
  }

  /** The stored form file and media paths read back as they were stored. */
  lemma CursorPathCells(env: Env, id: int, row: Values)
    requires StoredPathsStable(env)
    ensures var v := ValuesFromForm(env, FormFromCursor(env, CursorRow(id, row)));
      && v[FormFilePath] == TextValue(StringOf(row, FormFilePath))
      && v[FormMediaPath] == TextValue(StringOf(row, FormMediaPath))
  {
    CursorRowString(id, row, FormFilePath);
    CursorRowString(id, row, FormMediaPath);
    if StringOf(row, FormFilePath).Some? {
      var p := StringOf(row, FormFilePath).value;
      assert env.relativeFormPath(env.absoluteFormPath(p)) == p;
    }
    if StringOf(row, FormMediaPath).Some? {
      var p := StringOf(row, FormMediaPath).value;
      assert env.relativeFormPath(env.absoluteFormPath(p)) == p;
    }
  }

  lemma PlainCellCarried(env: Env, id: int, row: Values, c: Column)
    requires PlainText(c)
    ensures ValuesFromForm(env, FormFromCursor(env, CursorRow(id, row)))[c] ==
            TextValue(StringOf(row, c))
  {
    var r := CursorRow(id, row);
    var f := FormFromCursor(env, r);
    CursorPlainField(env, r, c);
    PlainCell(env, f, c);
    CursorRowString(id, row, c);
  }

  lemma CursorRowString(id: int, row: Values, c: Column)
    requires c != Id
    ensures StringOf(CursorRow(id, row), c) == StringOf(row, c)
  {
  }

  /** The text field of a Form that belongs to a plain text column. */
  function PlainField(f: Form, c: Column): Option<string>
  {
    match c
    case DisplayName => f.displayName
    case Description => f.description
    case JrFormId => f.jrFormId
    case JrVersion => f.jrVersion
    case SubmissionUri => f.submissionUri
    case Base64RsaPublicKey => f.base64RsaPublicKey
    case Md5Hash => f.md5Hash
    case Language => f.language
    case AutoSend => f.autoSend
    case AutoDelete => f.autoDelete
    case GeometryXpath => f.geometryXpath
    case _ => None
  }

  lemma CursorPlainField(env: Env, r: Values, c: Column)
    requires PlainText(c)
    ensures PlainField(FormFromCursor(env, r), c) == StringOf(r, c)
  {
  }

  lemma PlainCell(env: Env, f: Form, c: Column)
    requires PlainText(c)
    ensures ValuesFromForm(env, f)[c] == TextValue(PlainField(f, c))
  {
    assert ValuesFromForm(env, f)[c] == CarriedCell(env, f, c);
  }
}
