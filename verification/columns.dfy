/** A header row as the list of column names pandas reads from it, with the
    two operations the upload step performs on it: Python's `list.index`
    and pandas' column assignment `df[name] = value`. */
module Columns {
  import opened Wrappers

  /** `i` is where `name` first occurs in `cols`. */
  predicate IsFirstIndex(cols: seq<string>, name: string, i: int) {
    && 0 <= i < |cols|
    && cols[i] == name
    && forall j :: 0 <= j < i ==> cols[j] != name
  }

  /** Python's `cols.index(name)`: the first position holding `name`, or
      `None` where Python raises `ValueError`. */
  function IndexOf(cols: seq<string>, name: string): (r: Option<nat>)
    ensures r.None? <==> name !in cols
    ensures r.Some? ==> IsFirstIndex(cols, name, r.value)
  {
    if cols == [] then None
    else if cols[0] == name then Some(0)
    else match IndexOf(cols[1..], name)
      case None => None
      case Some(k) => Some(k + 1)
  }

  /** A name occurs first at one position only. */
  lemma FirstIndexUnique(cols: seq<string>, name: string, i: int, j: int)
    requires IsFirstIndex(cols, name, i) && IsFirstIndex(cols, name, j)
    ensures i == j
  {
  }

  /** The column names after pandas' `df[name] = value`: an existing column
      is overwritten where it stands, a new one is added at the end. */
  function SetColumn(cols: seq<string>, name: string): (r: seq<string>)
    ensures name in r
    ensures |cols| <= |r| <= |cols| + 1 && r[..|cols|] == cols
    ensures name in cols ==> |r| == |cols|
    ensures forall x :: x in r ==> x in cols || x == name
  {
    if name in cols then cols else cols + [name]
  }

  /** Assigning `name` moves no other column: every other name is found
      where it was found before, or is still missing. */
  lemma SetColumnKeepsOtherIndices(cols: seq<string>, name: string, other: string)
    requires other != name
    ensures IndexOf(SetColumn(cols, name), other) == IndexOf(cols, other)
  {
    var r := SetColumn(cols, name);
    match IndexOf(cols, other)
    case None =>
      assert other !in r;
    case Some(i) =>
      assert r[i] == cols[i];
      assert IsFirstIndex(r, other, i);
      FirstIndexUnique(r, other, i, IndexOf(r, other).value);
  }

  /** After the assignment `name` is found at its old position when it was
      already a column, and otherwise right after the original columns. */
  lemma SetColumnIndexOfAssigned(cols: seq<string>, name: string)
    ensures name in cols ==> IndexOf(SetColumn(cols, name), name) == IndexOf(cols, name)
    ensures name !in cols ==> IndexOf(SetColumn(cols, name), name) == Some(|cols|)
  {
    var r := SetColumn(cols, name);
    if name !in cols {
      assert IsFirstIndex(r, name, |cols|);
      FirstIndexUnique(r, name, |cols|, IndexOf(r, name).value);
    }
  }
}
