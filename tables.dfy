/**
 * The working dataset of the pipeline: an ordered list of column names and a
 * sequence of rows, each row holding one cell per column (a pandas
 * DataFrame after `reset_index`, the row index being the position).
 */
module Tables {

  datatype Option<T> = None | Some(value: T)

  /** One DataFrame cell: NaN/None, a string, or a number. */
  datatype Cell = Missing | Text(s: string) | Num(x: real)

  datatype Table = Table(columns: seq<string>, rows: seq<seq<Cell>>)

  /** Every row has one cell per column. */
  predicate WellFormed(t: Table) {
    forall i :: 0 <= i < |t.rows| ==> |t.rows[i]| == |t.columns|
  }

  /** The position of the first column called `name`. */
  function IndexOf(cols: seq<string>, name: string): (r: Option<nat>)
    ensures r.None? <==> name !in cols
    ensures r.Some? ==> r.value < |cols| && cols[r.value] == name
    ensures r.Some? ==> forall j :: 0 <= j < r.value ==> cols[j] != name
  {
    if cols == [] then None
    else if cols[0] == name then Some(0)
    else match IndexOf(cols[1..], name)
      case None => None
      case Some(j) => Some(j + 1)
  }

  function Position(cols: seq<string>, name: string): (j: nat)
    requires name in cols
    ensures j < |cols| && cols[j] == name
    ensures forall k :: 0 <= k < j ==> cols[k] != name
  {
    IndexOf(cols, name).value
  }

  /** `df.at[i, name]` */
  function At(t: Table, i: nat, name: string): Cell
    requires WellFormed(t) && i < |t.rows| && name in t.columns
  {
    t.rows[i][Position(t.columns, name)]
  }

  /** The cells of the column at position `j`. */
  function ColumnCells(t: Table, j: nat): (cells: seq<Cell>)
    requires WellFormed(t) && j < |t.columns|
    ensures |cells| == |t.rows|
    ensures forall i :: 0 <= i < |t.rows| ==> cells[i] == t.rows[i][j]
  {
    seq(|t.rows|, i requires 0 <= i < |t.rows| => t.rows[i][j])
  }

  /**
   * `df[name] = cells`: overwrites the column called `name` where it stands,
   * or appends a new last column.
   */
  function SetColumn(t: Table, name: string, cells: seq<Cell>): (r: Table)
    requires WellFormed(t) && |cells| == |t.rows|
    ensures WellFormed(r) && |r.rows| == |t.rows|
    ensures name in t.columns ==> r.columns == t.columns
    ensures name in t.columns ==> forall i, j :: 0 <= i < |t.rows| && 0 <= j < |t.columns| ==>
      r.rows[i][j] == if j == Position(t.columns, name) then cells[i] else t.rows[i][j]
    ensures name !in t.columns ==> r.columns == t.columns + [name]
    ensures name !in t.columns ==> forall i :: 0 <= i < |t.rows| ==> r.rows[i] == t.rows[i] + [cells[i]]
    ensures name in r.columns && forall i :: 0 <= i < |t.rows| ==> At(r, i, name) == cells[i]
  {
    if name in t.columns then
      var p := Position(t.columns, name);
      Table(t.columns, seq(|t.rows|, i requires 0 <= i < |t.rows| => t.rows[i][p := cells[i]]))
    else
      var r := Table(t.columns + [name], seq(|t.rows|, i requires 0 <= i < |t.rows| => t.rows[i] + [cells[i]]));
      assert Position(r.columns, name) == |t.columns|;
      r
  }

  /** Setting one column leaves every other column's cells as they were. */
  lemma SetColumnKeeps(t: Table, name: string, cells: seq<Cell>, other: string, i: nat)
    requires WellFormed(t) && |cells| == |t.rows| && other in t.columns && other != name && i < |t.rows|
    ensures other in SetColumn(t, name, cells).columns
    ensures At(SetColumn(t, name, cells), i, other) == At(t, i, other)
  {
    var r := SetColumn(t, name, cells);
    var p := Position(t.columns, other);
    assert r.columns[p] == other;
    assert forall k :: 0 <= k < p ==> r.columns[k] == t.columns[k];
    assert Position(r.columns, other) == p;
  }

  /** Writing the cells of two distinct columns of one row (`df.at[i, a] = x`, `df.at[i, b] = y`). */
  lemma WriteTwoCells(t: Table, r: Table, i: nat, a: string, b: string, x: Cell, y: Cell)
    requires WellFormed(t) && WellFormed(r) && r.columns == t.columns && i < |t.rows| == |r.rows|
    requires a in t.columns && b in t.columns && a != b
    requires r.rows[i] == t.rows[i][Position(t.columns, a) := x][Position(t.columns, b) := y]
    ensures At(r, i, a) == x && At(r, i, b) == y
    ensures forall c :: c in t.columns && c != a && c != b ==> At(r, i, c) == At(t, i, c)
  {
  }

  /** `r` is `t` with columns added after the existing ones, which keep their cells. */
  predicate Extends(r: Table, t: Table) {
    |t.columns| <= |r.columns| && r.columns[..|t.columns|] == t.columns && |r.rows| == |t.rows|
    && forall i :: 0 <= i < |t.rows| ==> |t.columns| <= |r.rows[i]| && r.rows[i][..|t.columns|] == t.rows[i]
  }

  lemma ExtendsTransitive(r: Table, s: Table, t: Table)
    requires Extends(r, s) && Extends(s, t)
    ensures Extends(r, t)
  {
    forall i | 0 <= i < |t.rows|
      ensures r.rows[i][..|t.columns|] == t.rows[i]
    {
      assert r.rows[i][..|t.columns|] == r.rows[i][..|s.columns|][..|t.columns|];
    }
    assert r.columns[..|t.columns|] == r.columns[..|s.columns|][..|t.columns|];
  }

  /** Setting a column that does not exist yet only appends it. */
  lemma SetNewColumnExtends(t: Table, name: string, cells: seq<Cell>)
    requires WellFormed(t) && |cells| == |t.rows| && name !in t.columns
    ensures Extends(SetColumn(t, name, cells), t)
  {
    var r := SetColumn(t, name, cells);
    forall i | 0 <= i < |t.rows|
      ensures r.rows[i][..|t.columns|] == t.rows[i]
    {
      assert r.rows[i] == t.rows[i] + [cells[i]];
    }
  }

  /** The positions `j` in `[i, n)` with `keep(j)`, in increasing order (a boolean mask applied to an index). */
  function Select(n: nat, keep: nat -> bool, i: nat): (r: seq<nat>)
    requires i <= n
    ensures forall k :: 0 <= k < |r| ==> i <= r[k] < n && keep(r[k])
    ensures forall k, l :: 0 <= k < l < |r| ==> r[k] < r[l]
    ensures forall j :: i <= j < n && keep(j) ==> j in r
    decreases n - i
  {
    if i == n then []
    else (if keep(i) then [i] else []) + Select(n, keep, i + 1)
  }

  /** `r` is the subsequence of `s` at the strictly increasing positions `idx`. */
  predicate PicksAt<T(==)>(r: seq<T>, s: seq<T>, idx: seq<nat>) {
    |idx| == |r|
    && (forall k :: 0 <= k < |idx| ==> idx[k] < |s| && r[k] == s[idx[k]])
    && (forall k, l :: 0 <= k < l < |idx| ==> idx[k] < idx[l])
  }

  /** The elements of `s` that satisfy `keep`, in their order (a list comprehension with an `if`). */
  function Filter<T(==,!new)>(s: seq<T>, keep: T -> bool): (r: seq<T>)
    ensures forall x :: x in r <==> x in s && keep(x)
    ensures exists idx: seq<nat> :: PicksAt(r, s, idx) && forall j :: 0 <= j < |s| ==> (j in idx <==> keep(s[j]))
  {
    if s == [] then
      assert PicksAt([], s, []);
      []
    else
      var init, last := s[..|s| - 1], s[|s| - 1];
      assert s == init + [last];
      FilterStep(init, last, keep, Filter(init, keep));
      Filter(init, keep) + (if keep(last) then [last] else [])
  }

  /** The filter of `init` extends to the filter of `init + [last]`. */
  lemma FilterStep<T(!new)>(init: seq<T>, last: T, keep: T -> bool, rest: seq<T>)
    requires forall x :: x in rest <==> x in init && keep(x)
    requires exists idx: seq<nat> :: PicksAt(rest, init, idx) && forall j :: 0 <= j < |init| ==> (j in idx <==> keep(init[j]))
    ensures var s, r := init + [last], rest + (if keep(last) then [last] else []);
      (forall x :: x in r <==> x in s && keep(x))
      && exists idx: seq<nat> :: PicksAt(r, s, idx) && forall j :: 0 <= j < |s| ==> (j in idx <==> keep(s[j]))
  {
    var s, r := init + [last], rest + (if keep(last) then [last] else []);
    var idx: seq<nat> :| PicksAt(rest, init, idx) && forall j :: 0 <= j < |init| ==> (j in idx <==> keep(init[j]));
    var idx': seq<nat> := idx + (if keep(last) then [|init|] else []);
    PicksAtAppend(rest, init, idx, last, keep(last));
    forall j | 0 <= j < |s|
      ensures j in idx' <==> keep(s[j])
    {
      if j < |init| {
        assert s[j] == init[j];
        assert j in idx' <==> j in idx;
      }
    }
  }

  /** Appending an element to the source, and possibly to the pick, extends the position map. */
  lemma PicksAtAppend<T>(r: seq<T>, s: seq<T>, idx: seq<nat>, x: T, picked: bool)
    requires PicksAt(r, s, idx)
    ensures PicksAt(r + (if picked then [x] else []), s + [x], idx + (if picked then [|s|] else []))
  {
    var r', s', idx' := r + (if picked then [x] else []), s + [x], idx + (if picked then [|s|] else []);
    forall k | 0 <= k < |idx'|
      ensures idx'[k] < |s'| && r'[k] == s'[idx'[k]]
    {
      if k < |idx| {
        assert r'[k] == r[k] && idx'[k] == idx[k] && s'[idx[k]] == s[idx[k]];
      }
    }
  }

  /** Filtering one more element appends it when it is kept. */
  lemma FilterAppend<T(!new)>(s: seq<T>, x: T, keep: T -> bool)
    ensures Filter(s + [x], keep) == Filter(s, keep) + (if keep(x) then [x] else [])
  {
    assert (s + [x])[..|s|] == s;
  }

  /** The rows at the given positions, in the given order (`df[mask]`). */
  function SelectRows(t: Table, idx: seq<nat>): (r: Table)
    requires WellFormed(t) && forall k :: 0 <= k < |idx| ==> idx[k] < |t.rows|
    ensures WellFormed(r) && r.columns == t.columns && |r.rows| == |idx|
    ensures forall k :: 0 <= k < |idx| ==> r.rows[k] == t.rows[idx[k]]
  {
    Table(t.columns, seq(|idx|, k requires 0 <= k < |idx| => t.rows[idx[k]]))
  }

  /** The columns at the given positions, in the given order (`df.loc[:, mask]`). */
  function SelectColumns(t: Table, idx: seq<nat>): (r: Table)
    requires WellFormed(t) && forall k :: 0 <= k < |idx| ==> idx[k] < |t.columns|
    ensures WellFormed(r) && |r.columns| == |idx| && |r.rows| == |t.rows|
    ensures forall k :: 0 <= k < |idx| ==> r.columns[k] == t.columns[idx[k]]
    ensures forall i, k :: 0 <= i < |t.rows| && 0 <= k < |idx| ==> r.rows[i][k] == t.rows[i][idx[k]]
  {
    Table(seq(|idx|, k requires 0 <= k < |idx| => t.columns[idx[k]]),
      seq(|t.rows|, i requires 0 <= i < |t.rows| => seq(|idx|, k requires 0 <= k < |idx| => t.rows[i][idx[k]])))
  }

  /**
   * `str(cell)`: a missing cell reads "nan", a number is rendered by
   * `render` (Python's `str` of a float).
   */
  function CellText(c: Cell, render: real -> string): string {
    match c
    case Missing => "nan"
    case Text(s) => s
    case Num(x) => render(x)
  }

  /** `pd.to_numeric(cell, errors='coerce')`, the parsing of strings being the given `parse`. */
  function ToNumeric(c: Cell, parse: string -> Option<real>): Option<real> {
    match c
    case Missing => None
    case Num(x) => Some(x)
    case Text(s) => parse(s)
  }
}
