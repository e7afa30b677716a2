/** The three content URIs the provider answers and its getType. */
module Uris {
  import opened Columns

  /** A content URI: its authority and its path segments. */
  datatype Uri = Uri(authority: string, segments: seq<string>)

  /** The patterns registered with the UriMatcher: the provider authority,
      the path of the forms collection and the path of the newest-by-form-id view. */
  datatype UriTable = UriTable(authority: string, formsPath: string, newestPath: string)

  /** FORMS, FORM_ID (with the numeric id), NEWEST_FORMS_BY_FORM_ID, NO_MATCH. */
  datatype Match = Forms | FormItem(id: nat) | NewestByFormId | NoMatch

  /** FormsColumns.CONTENT_TYPE and FormsColumns.CONTENT_ITEM_TYPE. */
  datatype MimeType = DirType | ItemType

  /** UriMatcher.match over the three registered patterns. addURI overwrites
      the code of a path registered before, so were the two paths equal the
      newest view, registered last, would take it. */
  function UriMatch(t: UriTable, u: Uri): (m: Match)
    ensures m != NoMatch ==> u.authority == t.authority && |u.segments| > 0
    ensures m == Forms <==>
      (u.authority == t.authority && u.segments == [t.formsPath] && t.formsPath != t.newestPath)
    ensures m.FormItem? <==>
      (u.authority == t.authority && |u.segments| == 2 &&
       u.segments[0] == t.formsPath && IsDigits(u.segments[1]))
    ensures m.FormItem? ==> m.id == ParseDigits(u.segments[1])
    ensures m == NewestByFormId <==> u.authority == t.authority && u.segments == [t.newestPath]
  {
    if u.authority != t.authority then NoMatch
    else if u.segments == [t.newestPath] then NewestByFormId
    else if u.segments == [t.formsPath] then Forms
    else if |u.segments| == 2 && u.segments[0] == t.formsPath && IsDigits(u.segments[1])
    then FormItem(ParseDigits(u.segments[1]))
    else NoMatch
  }

  /** getType: the collection and the newest view are directory types, a
      single form is an item type, anything else is an unknown URI. */
  function GetType(t: UriTable, u: Uri): (r: Result<MimeType>)
    ensures r.Err? <==> UriMatch(t, u) == NoMatch
    ensures r.Err? ==> r.error == UnknownUri
    ensures r == Ok(ItemType) <==> UriMatch(t, u).FormItem?
    ensures r == Ok(DirType) <==> UriMatch(t, u) in {Forms, NewestByFormId}
  {
    match UriMatch(t, u)
    case Forms => Ok(DirType)
    case NewestByFormId => Ok(DirType)
    case FormItem(_) => Ok(ItemType)
    case NoMatch => Err(UnknownUri)
  }
}
