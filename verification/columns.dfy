/** Columns of the forms table, the values a row or a ContentValues map holds,
    and the outside capabilities (path conversion, hashing, file names) the
    provider calls but does not implement. */
module Columns {

  datatype Option<+T> = None | Some(value: T)

  /** What an operation of the provider can end with instead of a result. */
  datatype Failure =
    | UnknownUri          // IllegalArgumentException("Unknown URI ...")
    | MissingFormFilePath // IllegalArgumentException(FORM_FILE_PATH + " must be specified.")
    | NullPointer         // a null path handed to `new File(...)`
    | DuplicateFormFile   // SQLException: row already exists for form definition file
    | ConstraintFailed    // insertOrThrow rejects the row (taken or non-integer _ID)
    | InsertFailed        // SQLException("Failed to insert into the forms database.")
    | EmptyValues         // IllegalArgumentException("Empty values") from SQLiteDatabase.update

  datatype Result<+T> = Ok(value: T) | Err(error: Failure)

  /** The columns of the forms table (FormsProviderAPI.FormsColumns and _ID). */
  datatype Column =
    | Id | DisplayName | Description | JrFormId | JrVersion | FormFilePath
    | SubmissionUri | Base64RsaPublicKey | Md5Hash | Date | JrCacheFilePath
    | FormMediaPath | Language | AutoSend | AutoDelete | GeometryXpath | DeletedDate

  /** A cell: SQL NULL, an integer, or text. */
  datatype Value = Null | Num(n: int) | Text(s: string)

  /** A row of the table, or an android ContentValues map. */
  type Values = map<Column, Value>

  /** What a path on disk is. */
  datatype Kind = File | Dir

  /** The filesystem: every existing path and what it is. */
  type FileSystem = map<string, Kind>

  /** Deterministic outside capabilities, taken as given. */
  datatype Env = Env(
    absoluteFormPath: string -> string,  // StoragePathProvider.getAbsoluteFormFilePath
    relativeFormPath: string -> string,  // StoragePathProvider.getRelativeFormPath
    absoluteCachePath: string -> string, // StoragePathProvider.getAbsoluteCacheFilePath
    relativeCachePath: string -> string, // StoragePathProvider.getRelativeCachePath
    normalize: string -> string,         // File.getAbsolutePath
    fileName: string -> string,          // File.getName
    mediaPath: string -> string,         // FileUtils.constructMediaPath
    md5: string -> string,               // FileUtils.getMd5Hash of the file at a path
    parent: string -> string             // File.getParent
  )

  /** The form-path conversions undo each other on absolute paths. */
  ghost predicate FormPathsInverse(env: Env)
  {
    forall a :: env.absoluteFormPath(env.relativeFormPath(a)) == a
  }

  /** The form-path conversions undo each other on stored (relative) paths. */
  ghost predicate StoredPathsStable(env: Env)
  {
    forall p :: env.relativeFormPath(env.absoluteFormPath(p)) == p
  }

  /** A path conversion applied to a path that may be null (null stays null). */
  function Lift(f: string -> string, p: Option<string>): (r: Option<string>)
    ensures r.Some? <==> p.Some?
    ensures p.Some? ==> r.value == f(p.value)
  {
    match p
    case None => None
    case Some(s) => Some(f(s))
  }

  /** The smallest and the largest Java long. */
  const LongMin: int := -0x8000_0000_0000_0000
  const LongMax: int := 0x7fff_ffff_ffff_ffff

  /** A non-empty run of ASCII decimal digits. */
  predicate IsDigits(s: string)
  {
    |s| > 0 && forall i :: 0 <= i < |s| ==> '0' <= s[i] <= '9'
  }

  /** The number a run of decimal digits spells. */
  function ParseDigits(s: string): (n: nat)
    requires forall i :: 0 <= i < |s| ==> '0' <= s[i] <= '9'
    decreases |s|
  {
    if s == [] then 0
    else 10 * ParseDigits(s[..|s| - 1]) + (s[|s| - 1] as int - '0' as int)
  }

  /** The decimal digits of n, most significant first. */
  function Digits(n: nat): (s: string)
    ensures IsDigits(s) && ParseDigits(s) == n
    ensures s[0] != '0' || s == "0"
    decreases n
  {
    var last := [(n % 10 + '0' as int) as char];
    if n < 10 then last
    else
      var front := Digits(n / 10);
      assert (front + last)[..|front|] == front;
      assert front != "0" by {
        assert ParseDigits("0") == 0;
      }
      front + last
  }

  /** Long.toString: a minus sign for a negative number, then its digits. */
  function LongToString(n: int): string
  {
    if n < 0 then "-" + Digits(-n) else Digits(n)
  }

  /** Long.valueOf(String): an optional sign and then decimal digits whose
      value fits a long; anything else is a NumberFormatException (None). */
  function ParseLong(s: string): (r: Option<int>)
    ensures r.Some? ==> LongMin <= r.value <= LongMax
    ensures r.Some? ==> IsDigits(s) || (|s| > 0 && s[0] in "+-" && IsDigits(s[1..]))
    ensures IsDigits(s) ==>
              r == if ParseDigits(s) <= LongMax then Some(ParseDigits(s)) else None
    ensures |s| > 0 && s[0] == '+' && IsDigits(s[1..]) ==>
              r == if ParseDigits(s[1..]) <= LongMax then Some(ParseDigits(s[1..])) else None
    ensures |s| > 0 && s[0] == '-' && IsDigits(s[1..]) ==>
              r == if -(ParseDigits(s[1..]) as int) >= LongMin then Some(-(ParseDigits(s[1..]) as int)) else None
  {
    if |s| > 0 && (s[0] == '-' || s[0] == '+') then
      if !IsDigits(s[1..]) then None
      else
        var n: int := if s[0] == '-' then -(ParseDigits(s[1..]) as int) else ParseDigits(s[1..]);
        if LongMin <= n <= LongMax then Some(n) else None
    else if IsDigits(s) && ParseDigits(s) <= LongMax then Some(ParseDigits(s))
    else None
  }

  /** Every long survives Long.toString followed by Long.valueOf. */
  lemma ParseLongToString(n: int)
    requires LongMin <= n <= LongMax
    ensures ParseLong(LongToString(n)) == Some(n)
  {
    var s := LongToString(n);
    if n < 0 {
      assert s[0] == '-' && s[1..] == Digits(-n);
    } else {
      assert '0' <= s[0] <= '9';
    }
  }

  /** Cursor.getString / ContentValues.getAsString: text as it is, a number
      through Long.toString, NULL or a missing column as null. */
  function StringOf(m: Values, c: Column): (r: Option<string>)
    ensures r.None? <==> c !in m || m[c] == Null
    ensures c in m && m[c].Text? ==> r == Some(m[c].s)
  {
    if c !in m then None
    else match m[c]
      case Null => None
      case Num(n) => Some(LongToString(n))
      case Text(s) => Some(s)
  }

  /** ContentValues.getAsLong: a number as it is, text through Long.valueOf
      (null when that throws), NULL or a missing column as null. */
  function LongOf(m: Values, c: Column): Option<int>
  {
    if c !in m then None
    else match m[c]
      case Null => None
      case Num(n) => Some(n)
      case Text(s) => ParseLong(s)
  }

  /** Cursor.getLong: a number, or 0 for NULL (and for text, see README). */
  function CursorLong(m: Values, c: Column): int
  {
    if c in m && m[c].Num? then m[c].n else 0
  }

  /** ContentValues.put of a String that may be null. */
  function TextValue(s: Option<string>): Value
  {
    if s.Some? then Text(s.value) else Null
  }

  /** ContentValues.put of a Long that may be null. */
  function LongValue(n: Option<int>): Value
  {
    if n.Some? then Num(n.value) else Null
  }

  /** A long put into a cell, or its decimal text put there, reads back
      through getAsLong as that long; a string put there reads back through
      getAsString as that string; a number reads back through getAsString as
      its decimal text. */
  lemma CellRoundTrips(m: Values, c: Column, n: Option<int>, s: Option<string>)
    ensures LongOf(m[c := LongValue(n)], c) == n
    ensures n.Some? && LongMin <= n.value <= LongMax ==>
              LongOf(m[c := Text(LongToString(n.value))], c) == n
    ensures StringOf(m[c := TextValue(s)], c) == s
    ensures n.Some? ==> StringOf(m[c := LongValue(n)], c) == Some(LongToString(n.value))
  {
    if n.Some? && LongMin <= n.value <= LongMax {
      ParseLongToString(n.value);
    }
  }

  /** A stored row as a cursor shows it: the row id appears as column _ID. */
  function CursorRow(id: int, row: Values): Values
  {
    row[Id := Num(id)]
  }

  /** Character.toLowerCase restricted to ASCII letters. */
  function LowerAscii(c: char): (r: char)
    ensures 'A' <= c <= 'Z' ==> 'a' <= r <= 'z' && r as int == c as int + 32
    ensures !('A' <= c <= 'Z') ==> r == c
  {
    if 'A' <= c <= 'Z' then (c as int - 'A' as int + 'a' as int) as char else c
  }

  /** String.equalsIgnoreCase(other): false for a null other, otherwise the
      same length and the same letters up to case. */
  predicate EqualsIgnoreCase(a: string, other: Option<string>)
  {
    other.Some? && |other.value| == |a| &&
    forall i :: 0 <= i < |a| ==> LowerAscii(a[i]) == LowerAscii(other.value[i])
  }

  lemma EqualsIgnoreCaseProperties(a: string, b: string)
    ensures EqualsIgnoreCase(a, Some(a))
    ensures !EqualsIgnoreCase(a, None)
    ensures EqualsIgnoreCase(a, Some(b)) <==> EqualsIgnoreCase(b, Some(a))
    ensures |a| != |b| ==> !EqualsIgnoreCase(a, Some(b))
  {
  }

  /** A non-empty set of row ids has a member (what lets a loop pick the next id). */
  lemma SomeMember(s: set<int>)
    requires s != {}
    ensures exists k :: k in s
  {
    if forall k :: k !in s {
      assert false;
    }
  }
}
