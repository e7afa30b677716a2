/** WHERE clauses with `?` placeholders, the rows they select, and
    prepareWhereArgs, which binds the form id in front of the caller's arguments. */
module Selections {
  import opened Columns
  import opened Uris

  /** A WHERE clause, taken as given: whether a cursor row satisfies it once
      its placeholders are bound to the arguments. */
  datatype Selection = Selection(holds: (Values, seq<string>) -> bool)

  /** A null or empty WHERE selects every row. */
  predicate Selects(where: Option<Selection>, row: Values, args: seq<string>)
  {
    where.None? || where.value.holds(row, args)
  }

  /** The arguments of a String[] array that may be null. */
  function ArgsOfArray(whereArgs: array?<string>): seq<string>
    reads whereArgs
  {
    if whereArgs == null then [] else whereArgs[..]
  }

  /** The ids of the stored rows a query with this WHERE returns. */
  function Matched(rows: map<int, Values>, where: Option<Selection>, args: seq<string>): set<int>
  {
    set k | k in rows && Selects(where, CursorRow(k, rows[k]), args)
  }

  /** Whether the WHERE selects a row depends on that row alone: removing some
      rows, or changing them, leaves the other rows' selection as it was. */
  lemma MatchedIsPerRow(rows: map<int, Values>, changed: map<int, Values>, where: Option<Selection>,
                        args: seq<string>, gone: set<int>)
    ensures Matched(rows - gone, where, args) == Matched(rows, where, args) - gone
    ensures Matched(rows + changed, where, args) - changed.Keys == Matched(rows, where, args) - changed.Keys
    ensures where.None? ==> Matched(rows, where, args) == rows.Keys
  {
    assert Matched(rows + changed, where, args) - changed.Keys == Matched(rows, where, args) - changed.Keys by {
      forall k | k in Matched(rows, where, args) - changed.Keys
        ensures k in Matched(rows + changed, where, args)
      {
        assert (rows + changed)[k] == rows[k];
      }
    }
  }

  /** `_ID=?` bound to a text argument: SQLite compares the integer key with
      the number the digits spell. */
  predicate IdArgMatches(id: int, arg: string)
  {
    IsDigits(arg) && ParseDigits(arg) == id
  }

  /** The single-form update's WHERE: `_ID=?`, followed by ` AND (where)` when
      the caller's where is not empty; the first argument binds the id, the
      rest bind the caller's where. */
  predicate CompoundSelects(id: int, row: Values, where: Option<Selection>, args: seq<string>)
  {
    |args| > 0 && IdArgMatches(id, args[0]) && (where.None? || where.value.holds(row, args[1..]))
  }

  /** prepareWhereArgs: a new array holding the form id followed by the
      caller's arguments (just the form id for a null or empty array). */
  method PrepareWhereArgs(whereArgs: array?<string>, formId: string) returns (r: array<string>)
    ensures fresh(r)
    ensures r[..] == [formId] + ArgsOfArray(whereArgs)
  {
    if whereArgs == null || whereArgs.Length == 0 {
      r := new string[1](_ => formId);
    } else {
      var n := whereArgs.Length;
      r := new string[n + 1](_ => formId);
      for i := 0 to n
        invariant r[0] == formId
        invariant forall j :: 0 <= j < i ==> r[j + 1] == whereArgs[j]
      {
        r[i + 1] := whereArgs[i];
      }
      assert r[..] == [formId] + whereArgs[..] by {
        forall j | 0 <= j < n ensures r[..][j + 1] == whereArgs[..][j] {
        }
      }
    }
  }

  /** With the arguments prepareWhereArgs gives, the compound WHERE selects
      exactly the row whose id the URI segment spells, when the caller's where
      selects it under the caller's own arguments. */
  lemma CompoundWithPreparedArgs(id: int, row: Values, where: Option<Selection>,
                                 whereArgs: seq<string>, formId: string)
    requires IsDigits(formId)
    ensures CompoundSelects(id, row, where, [formId] + whereArgs) <==>
            id == ParseDigits(formId) && Selects(where, row, whereArgs)
  {
    assert ([formId] + whereArgs)[1..] == whereArgs;
  }
}
