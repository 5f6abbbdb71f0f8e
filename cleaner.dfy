/**
 * The cleaning pipeline (`clean_scraped_data`): empty columns and rows are
 * dropped, column names normalised and de-duplicated, null tokens in text
 * columns turned into missing cells; then the column mapper, the synthetic
 * column generator and the coordinate resolver run; finally ratings
 * outside [0, 5] and negative prices become missing and rows repeating a
 * (`nama`, `provinsi`) pair are dropped.
 */
module Cleaner {
  import opened Strings
  import opened Tables
  import opened ColumnNames
  import ColumnMapper
  import Synthetic
  import Coordinates

  /** The column at `j` survives `dropna(axis=1, how='all')` and the test `astype(str).ne('').any()`. */
  predicate ColumnKept(t: Table, j: nat, render: real -> string)
    requires WellFormed(t) && j < |t.columns|
  {
    (exists i :: 0 <= i < |t.rows| && t.rows[i][j] != Missing)
    && (exists i :: 0 <= i < |t.rows| && CellText(t.rows[i][j], render) != "")
  }

  /** The row survives `dropna(axis=0, how='all')` and the test `astype(str).ne('').any(axis=1)`. */
  predicate RowKept(row: seq<Cell>, render: real -> string) {
    (exists j :: 0 <= j < |row| && row[j] != Missing) && (exists j :: 0 <= j < |row| && CellText(row[j], render) != "")
  }

  function KeptColumns(t: Table, render: real -> string): (idx: seq<nat>)
    requires WellFormed(t)
    ensures forall k :: 0 <= k < |idx| ==> idx[k] < |t.columns| && ColumnKept(t, idx[k], render)
    ensures forall k, l :: 0 <= k < l < |idx| ==> idx[k] < idx[l]
    ensures forall j :: 0 <= j < |t.columns| && ColumnKept(t, j, render) ==> j in idx
  {
    Select(|t.columns|, (j: nat) => j < |t.columns| && ColumnKept(t, j, render), 0)
  }

  function DropEmptyColumns(t: Table, render: real -> string): (r: Table)
    requires WellFormed(t)
    ensures WellFormed(r) && |r.rows| == |t.rows|
  {
    SelectColumns(t, KeptColumns(t, render))
  }

  function KeptRows(t: Table, render: real -> string): (idx: seq<nat>)
    requires WellFormed(t)
    ensures forall k :: 0 <= k < |idx| ==> idx[k] < |t.rows| && RowKept(t.rows[idx[k]], render)
    ensures forall k, l :: 0 <= k < l < |idx| ==> idx[k] < idx[l]
    ensures forall i :: 0 <= i < |t.rows| && RowKept(t.rows[i], render) ==> i in idx
  {
    Select(|t.rows|, (i: nat) => i < |t.rows| && RowKept(t.rows[i], render), 0)
  }

  function DropEmptyRows(t: Table, render: real -> string): (r: Table)
    requires WellFormed(t)
    ensures WellFormed(r) && r.columns == t.columns
  {
    SelectRows(t, KeptRows(t, render))
  }

  /** After the drops every column and every row holds a cell that is not missing and one whose text is not empty. */
  lemma DropsLeaveNoEmptyRow(t: Table, render: real -> string, i: nat)
    requires WellFormed(t)
    requires i < |DropEmptyRows(DropEmptyColumns(t, render), render).rows|
    ensures RowKept(DropEmptyRows(DropEmptyColumns(t, render), render).rows[i], render)
  {
  }

  /** The columns whose dtype is `object`: those holding some text cell. */
  function TextColumns(t: Table): (r: seq<bool>)
    requires WellFormed(t)
    ensures |r| == |t.columns|
    ensures forall j :: 0 <= j < |t.columns| ==> (r[j] <==> exists i :: 0 <= i < |t.rows| && t.rows[i][j].Text?)
  {
    seq(|t.columns|, j requires 0 <= j < |t.columns| => exists i :: 0 <= i < |t.rows| && t.rows[i][j].Text?)
  }

  /** The texts `replace` turns into NaN. */
  function NullTokens(): seq<string> {
    ["nan", "None", "", "N/A", "n/a"]
  }

  /** One cell of a text column: `astype(str).str.strip()`, then a null token becomes missing. */
  function CleanCell(c: Cell, render: real -> string): (r: Cell)
    ensures r == Missing || (r.Text? && r.s !in NullTokens() && Strip(r.s) == r.s)
    ensures r == Missing <==> Strip(CellText(c, render)) in NullTokens()
    ensures r.Text? ==> r.s == Strip(CellText(c, render))
  {
    var s := Strip(CellText(c, render));
    StripIdempotent(CellText(c, render));
    if s in NullTokens() then Missing else Text(s)
  }

  /** Cleaning a cleaned cell changes nothing. */
  lemma CleanCellIdempotent(c: Cell, render: real -> string)
    ensures CleanCell(CleanCell(c, render), render) == CleanCell(c, render)
  {
    var r := CleanCell(c, render);
    if r == Missing {
      assert TextStart("nan", 0) == 0 && TextEnd("nan", 0, 3) == 3;
      assert Strip("nan") == "nan";
    } else {
      assert CellText(r, render) == r.s;
    }
  }

  /**
   * The columns the cleaning loop rewrites: text columns whose name is not
   * repeated (for a repeated name `df[col]` is a frame, whose missing
   * `dtype` raises inside the loop's `try`, so the column is skipped).
   */
  function CleanFlags(names: seq<string>, text: seq<bool>): (flags: seq<bool>)
    requires |text| == |names|
    ensures |flags| == |names|
    ensures forall j :: 0 <= j < |names| ==> (flags[j] <==> text[j] && CountIn(names, names[j], |names|) == 1)
  {
    seq(|names|, j requires 0 <= j < |names| => text[j] && CountIn(names, names[j], |names|) == 1)
  }

  /** The table after the cleaning loop: flagged columns have every cell cleaned, the others are kept. */
  function CleanedTable(t: Table, flags: seq<bool>, render: real -> string): (r: Table)
    requires WellFormed(t) && |flags| == |t.columns|
    ensures WellFormed(r) && r.columns == t.columns && |r.rows| == |t.rows|
  {
    Table(t.columns, seq(|t.rows|, i requires 0 <= i < |t.rows| =>
      seq(|t.columns|, j requires 0 <= j < |t.columns| => if flags[j] then CleanCell(t.rows[i][j], render) else t.rows[i][j])))
  }

  /** The loop `for col in df.columns`, rewriting one flagged column at a time. */
  method CleanCells(t: Table, flags: seq<bool>, render: real -> string) returns (r: Table)
    requires WellFormed(t) && |flags| == |t.columns|
    ensures r == CleanedTable(t, flags, render)
  {
    r := t;
    for j := 0 to |t.columns|
      invariant r.columns == t.columns && |r.rows| == |t.rows|
      invariant forall i :: 0 <= i < |t.rows| ==> |r.rows[i]| == |t.columns|
      invariant forall i, k {:trigger r.rows[i][k]} :: 0 <= i < |t.rows| && 0 <= k < |t.columns| ==>
        r.rows[i][k] == if k < j && flags[k] then CleanCell(t.rows[i][k], render) else t.rows[i][k]
    {
      if flags[j] {
        var r' := Table(r.columns, seq(|r.rows|, i requires 0 <= i < |r.rows| => r.rows[i][j := CleanCell(r.rows[i][j], render)]));
        forall i | 0 <= i < |t.rows|
          ensures r'.rows[i] == r.rows[i][j := CleanCell(t.rows[i][j], render)]
        {
        }
        r := r';
      }
    }
    forall i | 0 <= i < |t.rows|
      ensures r.rows[i] == CleanedTable(t, flags, render).rows[i]
    {
    }
  }

  /** `pd.to_numeric` then `rating > 5 or rating < 0` becomes NaN. */
  function RatingCell(v: Option<real>): (c: Cell)
    ensures c == Missing || (c.Num? && 0.0 <= c.x <= 5.0)
    ensures v.Some? && 0.0 <= v.value <= 5.0 ==> c == Num(v.value)
    ensures c == Missing <==> v.None? || v.value < 0.0 || v.value > 5.0
  {
    match v
    case None => Missing
    case Some(x) => if x > 5.0 || x < 0.0 then Missing else Num(x)
  }

  /** `pd.to_numeric` then `harga < 0` becomes NaN. */
  function PriceCell(v: Option<real>): (c: Cell)
    ensures c == Missing || (c.Num? && 0.0 <= c.x)
    ensures v.Some? && 0.0 <= v.value ==> c == Num(v.value)
    ensures c == Missing <==> v.None? || v.value < 0.0
  {
    match v
    case None => Missing
    case Some(x) => if x < 0.0 then Missing else Num(x)
  }

  function BoundRating(t: Table, parse: string -> Option<real>): (r: Table)
    requires WellFormed(t)
    ensures WellFormed(r) && r.columns == t.columns && |r.rows| == |t.rows|
  {
    if "rating" in t.columns then
      SetColumn(t, "rating", seq(|t.rows|, i requires 0 <= i < |t.rows| => RatingCell(ToNumeric(At(t, i, "rating"), parse))))
    else t
  }

  function BoundPrice(t: Table, parse: string -> Option<real>): (r: Table)
    requires WellFormed(t)
    ensures WellFormed(r) && r.columns == t.columns && |r.rows| == |t.rows|
  {
    if "harga" in t.columns then
      SetColumn(t, "harga", seq(|t.rows|, i requires 0 <= i < |t.rows| => PriceCell(ToNumeric(At(t, i, "harga"), parse))))
    else t
  }

  predicate HasKeyColumns(t: Table) {
    "nama" in t.columns && "provinsi" in t.columns
  }

  /** The (`nama`, `provinsi`) pair of a row; a missing cell equals a missing cell, as in pandas. */
  function RowKey(t: Table, i: nat): (Cell, Cell)
    requires WellFormed(t) && HasKeyColumns(t) && i < |t.rows|
  {
    (At(t, i, "nama"), At(t, i, "provinsi"))
  }

  /** No earlier row has the same pair. */
  predicate FirstOfKey(t: Table, i: nat)
    requires WellFormed(t) && HasKeyColumns(t) && i < |t.rows|
  {
    forall j :: 0 <= j < i ==> RowKey(t, j) != RowKey(t, i)
  }

  /** The positions of the rows `drop_duplicates` keeps. */
  function FirstRows(t: Table): (idx: seq<nat>)
    requires WellFormed(t) && HasKeyColumns(t)
    ensures forall k :: 0 <= k < |idx| ==> idx[k] < |t.rows| && FirstOfKey(t, idx[k])
    ensures forall k, l :: 0 <= k < l < |idx| ==> idx[k] < idx[l]
    ensures forall i :: 0 <= i < |t.rows| && FirstOfKey(t, i) ==> i in idx
    ensures |idx| <= |t.rows|
  {
    var idx := Select(|t.rows|, (i: nat) => i < |t.rows| && FirstOfKey(t, i), 0);
    SelectIsShort(idx, |t.rows|);
    idx
  }

  /** `drop_duplicates(subset=['nama', 'provinsi'], keep='first')` */
  function DedupRows(t: Table): (r: Table)
    requires WellFormed(t) && HasKeyColumns(t)
    ensures WellFormed(r) && r.columns == t.columns && |r.rows| <= |t.rows|
  {
    SelectRows(t, FirstRows(t))
  }

  /** Strictly increasing positions below `n` are at most `n` many. */
  lemma {:induction false} SelectIsShort(idx: seq<nat>, n: nat)
    requires forall k :: 0 <= k < |idx| ==> idx[k] < n
    requires forall k, l :: 0 <= k < l < |idx| ==> idx[k] < idx[l]
    ensures |idx| <= n
    decreases n
  {
    if idx != [] {
      var last := idx[|idx| - 1];
      assert forall k :: 0 <= k < |idx| - 1 ==> idx[k] < last;
      SelectIsShort(idx[..|idx| - 1], last);
    }
  }

  /** After de-duplication no two rows share a (`nama`, `provinsi`) pair. */
  lemma DedupKeysDistinct(t: Table, k: nat, l: nat)
    requires WellFormed(t) && HasKeyColumns(t)
    requires k < l < |DedupRows(t).rows|
    ensures RowKey(DedupRows(t), k) != RowKey(DedupRows(t), l)
  {
    var idx := FirstRows(t);
    assert RowKey(DedupRows(t), k) == RowKey(t, idx[k]);
    assert RowKey(DedupRows(t), l) == RowKey(t, idx[l]);
  }

  /** The first row with a given pair is at or before any row with that pair. */
  lemma {:induction false} FirstWithKey(t: Table, i: nat) returns (f: nat)
    requires WellFormed(t) && HasKeyColumns(t) && i < |t.rows|
    ensures f <= i && RowKey(t, f) == RowKey(t, i) && FirstOfKey(t, f)
  {
    if FirstOfKey(t, i) {
      f := i;
    } else {
      var j :| 0 <= j < i && RowKey(t, j) == RowKey(t, i);
      f := FirstWithKey(t, j);
    }
  }

  /** Every pair of the input survives, carried by the first row that has it. */
  lemma DedupKeepsFirst(t: Table, i: nat)
    requires WellFormed(t) && HasKeyColumns(t) && i < |t.rows|
    ensures exists f :: 0 <= f <= i && RowKey(t, f) == RowKey(t, i) && FirstOfKey(t, f) && t.rows[f] in DedupRows(t).rows
  {
    var f := FirstWithKey(t, i);
    var idx := FirstRows(t);
    var k :| 0 <= k < |idx| && idx[k] == f;
    assert DedupRows(t).rows[k] == t.rows[f];
  }

  /** The input is empty or keeps some row once empty columns and rows are dropped (else `extract_coordinates` gives `None` and the next step fails). */
  predicate CleanDefined(t: Table, render: real -> string)
    requires WellFormed(t)
  {
    |t.rows| == 0 || |DropEmptyRows(DropEmptyColumns(t, render), render).rows| > 0
  }

  /** The steps up to and including the cell cleaning. */
  function Normalize(t: Table, render: real -> string): (r: Table)
    requires WellFormed(t)
    ensures WellFormed(r) && |r.rows| == |DropEmptyRows(DropEmptyColumns(t, render), render).rows|
  {
    var a := DropEmptyColumns(t, render);
    var b := DropEmptyRows(a, render);
    var names := DedupNames(CleanNames(b.columns));
    CleanedTable(Table(names, b.rows), CleanFlags(names, TextColumns(a)), render)
  }

  /**
   * After the cleaning loop a text column whose (renamed) name is unique
   * holds only missing cells and stripped texts that are no null token; a
   * column whose name is repeated, or that holds no text, keeps the cells
   * the drops left.
   */
  lemma NormalizeCells(t: Table, render: real -> string, i: nat, j: nat)
    requires WellFormed(t)
    requires i < |Normalize(t, render).rows| && j < |Normalize(t, render).columns|
    ensures var a := DropEmptyColumns(t, render); var b := DropEmptyRows(a, render); var r := Normalize(t, render);
      j < |b.columns| && i < |b.rows| && r.columns == DedupNames(CleanNames(b.columns))
      && (CountIn(r.columns, r.columns[j], |r.columns|) > 1 || !TextColumns(a)[j] ==> r.rows[i][j] == b.rows[i][j])
      && (CountIn(r.columns, r.columns[j], |r.columns|) == 1 && TextColumns(a)[j] ==> r.rows[i][j] == CleanCell(b.rows[i][j], render))
  {
    var a := DropEmptyColumns(t, render);
    var b := DropEmptyRows(a, render);
    var names := DedupNames(CleanNames(b.columns));
    CleanedCell(Table(names, b.rows), CleanFlags(names, TextColumns(a)), render, i, j);
  }

  lemma CleanedCell(t: Table, flags: seq<bool>, render: real -> string, i: nat, j: nat)
    requires WellFormed(t) && |flags| == |t.columns| && i < |t.rows| && j < |t.columns|
    ensures CleanedTable(t, flags, render).rows[i][j] == if flags[j] then CleanCell(t.rows[i][j], render) else t.rows[i][j]
  {
  }

  /** The steps after the resolver: the rating and price bounds and the de-duplication. */
  function Finish(t: Table, parse: string -> Option<real>): (r: Table)
    requires WellFormed(t)
    ensures WellFormed(r) && r.columns == t.columns
    ensures |t.rows| > 0 ==> |r.rows| > 0
  {
    var bounded := BoundPrice(BoundRating(t, parse), parse);
    if HasKeyColumns(bounded) then
      assert |bounded.rows| > 0 ==> |DedupRows(bounded).rows| > 0 by {
        if |bounded.rows| > 0 {
          DedupKeepsSomeRow(bounded);
        }
      }
      DedupRows(bounded)
    else bounded
  }

  /** The normalised table with the standard column names. */
  function Mapped(t: Table, render: real -> string): (m: Table)
    requires WellFormed(t) && CleanDefined(t, render) && |t.rows| > 0
    ensures WellFormed(m) && |m.rows| > 0
  {
    var c := Normalize(t, render);
    Table(ColumnMapper.RenameColumns(c.columns, ColumnMapper.ColumnMapping(c.columns)), c.rows)
  }

  /** The table after the synthetic columns and the coordinate lookup. */
  function Resolved(t: Table, g: Coordinates.Gazetteers, parse: string -> Option<real>, render: real -> string): (r: Table)
    requires WellFormed(t) && CleanDefined(t, render) && |t.rows| > 0
    ensures WellFormed(r) && |r.rows| > 0 && "rating" in r.columns
  {
    var s := Synthetic.Synthesize(Mapped(t, render), render);
    Synthetic.SynthesizeAddsColumns(Mapped(t, render), render);
    Coordinates.Resolve(s, g, parse, render)
  }

  /** The table `clean_scraped_data` returns, or none. */
  function CleanSpec(t: Table, g: Coordinates.Gazetteers, parse: string -> Option<real>, render: real -> string): Option<Table>
    requires WellFormed(t) && CleanDefined(t, render)
  {
    if |t.rows| == 0 then None
    else
      var d := Finish(Resolved(t, g, parse, render), parse);
      if |d.rows| == 0 then None else Some(d)
  }

  /** The steps up to and including the cell cleaning, in the order the source runs them. */
  method NormalizeTable(t: Table, render: real -> string) returns (c: Table)
    requires WellFormed(t)
    ensures c == Normalize(t, render)
  {
    var a := DropEmptyColumns(t, render);
    var b := DropEmptyRows(a, render);
    var names := RenameDuplicates(CleanNames(b.columns));
    c := CleanCells(Table(names, b.rows), CleanFlags(names, TextColumns(a)), render);
  }

  /** The steps after the resolver. */
  method FinishTable(t: Table, parse: string -> Option<real>) returns (d: Table)
    requires WellFormed(t)
    ensures d == Finish(t, parse)
  {
    d := BoundRating(t, parse);
    d := BoundPrice(d, parse);
    if "nama" in d.columns && "provinsi" in d.columns {
      d := DedupRows(d);
    }
  }

  /** The steps of `clean_scraped_data` up to and including `extract_coordinates`, on a non-empty table. */
  method Prepare(t: Table, g: Coordinates.Gazetteers, parse: string -> Option<real>, render: real -> string) returns (r: Table)
    requires WellFormed(t) && CleanDefined(t, render) && |t.rows| > 0
    ensures r == Resolved(t, g, parse, render)
  {
    var c := NormalizeTable(t, render);
    c := ColumnMapper.MapColumns(c);
    c := Synthetic.CreateSyntheticColumns(c, render);
    var resolved := Coordinates.ExtractCoordinates(c, g, parse, render);
    r := resolved.value;
  }

  /** `clean_scraped_data`, whose `extract_coordinates` searches the two fixed gazetteers. */
  method Clean(t: Table, parse: string -> Option<real>, render: real -> string) returns (result: Option<Table>)
    requires WellFormed(t) && CleanDefined(t, render)
    ensures result == CleanSpec(t, Coordinates.Indonesia(), parse, render)
  {
    if |t.rows| == 0 {
      return None;
    }
    var g := Coordinates.Indonesia();
    var r := Prepare(t, g, parse, render);
    var d := FinishTable(r, parse);
    assert d == Finish(Resolved(t, g, parse, render), parse);
    if |d.rows| == 0 {
      return None;
    }
    return Some(d);
  }

  /** A non-empty table keeps at least its first row through de-duplication. */
  lemma DedupKeepsSomeRow(t: Table)
    requires WellFormed(t) && HasKeyColumns(t) && |t.rows| > 0
    ensures |DedupRows(t).rows| > 0
  {
    assert FirstOfKey(t, 0);
    assert 0 in FirstRows(t);
  }

  /** Every rating left is missing or in [0, 5], and the column is still there. */
  lemma FinishRatingBounded(t: Table, parse: string -> Option<real>, i: nat)
    requires WellFormed(t) && "rating" in t.columns
    ensures var r := Finish(t, parse);
      ("rating" in r.columns
       && (i < |r.rows| ==> At(r, i, "rating") == Missing || (At(r, i, "rating").Num? && 0.0 <= At(r, i, "rating").x <= 5.0)))
  {
    var b1 := BoundRating(t, parse);
    var b2 := BoundPrice(b1, parse);
    var r := Finish(t, parse);
    if i < |r.rows| {
      var j := i;
      if HasKeyColumns(b2) {
        j := FirstRows(b2)[i];
        assert At(r, i, "rating") == At(b2, j, "rating");
      }
      if "harga" in b1.columns {
        SetColumnKeeps(b1, "harga", seq(|b1.rows|, k requires 0 <= k < |b1.rows| => PriceCell(ToNumeric(At(b1, k, "harga"), parse))), "rating", j);
      }
    }
  }

  /** Every price left is missing or not negative. */
  lemma FinishPriceBounded(t: Table, parse: string -> Option<real>, i: nat)
    requires WellFormed(t) && "harga" in t.columns
    ensures var r := Finish(t, parse);
      ("harga" in r.columns
       && (i < |r.rows| ==> At(r, i, "harga") == Missing || (At(r, i, "harga").Num? && 0.0 <= At(r, i, "harga").x)))
  {
    var b2 := BoundPrice(BoundRating(t, parse), parse);
    var r := Finish(t, parse);
    if i < |r.rows| && HasKeyColumns(b2) {
      assert At(r, i, "harga") == At(b2, FirstRows(b2)[i], "harga");
    }
  }

  /** After the final step no two rows share a (`nama`, `provinsi`) pair. */
  lemma FinishKeysDistinct(t: Table, parse: string -> Option<real>, k: nat, l: nat)
    requires WellFormed(t) && HasKeyColumns(t)
    requires k < l < |Finish(t, parse).rows|
    ensures RowKey(Finish(t, parse), k) != RowKey(Finish(t, parse), l)
  {
    DedupKeysDistinct(BoundPrice(BoundRating(t, parse), parse), k, l);
  }

  /** Cleaning gives none exactly for an empty input. */
  lemma CleanNoneIff(t: Table, g: Coordinates.Gazetteers, parse: string -> Option<real>, render: real -> string)
    requires WellFormed(t) && CleanDefined(t, render)
    ensures CleanSpec(t, g, parse, render).None? <==> |t.rows| == 0
  {
  }

  /** After cleaning the table has a `rating` column whose every value is missing or in [0, 5]. */
  lemma CleanRatingBounded(t: Table, g: Coordinates.Gazetteers, parse: string -> Option<real>, render: real -> string, i: nat)
    requires WellFormed(t) && CleanDefined(t, render) && CleanSpec(t, g, parse, render).Some?
    ensures var r := CleanSpec(t, g, parse, render).value;
      ("rating" in r.columns
       && (i < |r.rows| ==> At(r, i, "rating") == Missing || (At(r, i, "rating").Num? && 0.0 <= At(r, i, "rating").x <= 5.0)))
  {
    FinishRatingBounded(Resolved(t, g, parse, render), parse, i);
  }

  /** After cleaning every `harga` value is missing or not negative. */
  lemma CleanPriceBounded(t: Table, g: Coordinates.Gazetteers, parse: string -> Option<real>, render: real -> string, i: nat)
    requires WellFormed(t) && CleanDefined(t, render) && CleanSpec(t, g, parse, render).Some?
    requires "harga" in CleanSpec(t, g, parse, render).value.columns
    ensures var r := CleanSpec(t, g, parse, render).value;
      i < |r.rows| ==> At(r, i, "harga") == Missing || (At(r, i, "harga").Num? && 0.0 <= At(r, i, "harga").x)
  {
    FinishPriceBounded(Resolved(t, g, parse, render), parse, i);
  }

  /** After cleaning no two rows share a (`nama`, `provinsi`) pair. */
  lemma CleanKeysDistinct(t: Table, g: Coordinates.Gazetteers, parse: string -> Option<real>, render: real -> string, k: nat, l: nat)
    requires WellFormed(t) && CleanDefined(t, render) && CleanSpec(t, g, parse, render).Some?
    requires HasKeyColumns(CleanSpec(t, g, parse, render).value)
    requires k < l < |CleanSpec(t, g, parse, render).value.rows|
    ensures RowKey(CleanSpec(t, g, parse, render).value, k) != RowKey(CleanSpec(t, g, parse, render).value, l)
  {
    FinishKeysDistinct(Resolved(t, g, parse, render), parse, k, l);
  }
}
