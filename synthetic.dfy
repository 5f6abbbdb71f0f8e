/**
 * The synthetic column generator (`create_synthetic_columns`): adds a
 * `kategori` column guessed from keywords in `nama`, an empty `rating`
 * column, and a `kota` column taken from `provinsi`, each only when the
 * column is absent.
 */
module Synthetic {
  import opened Strings
  import opened Tables

  /** The keyword table, category by category in the order they are tried. */
  function CategoryKeywords(): seq<(string, seq<string>)> {
    [
      ("beach", ["beach", "pantai", "laut", "sea", "coast", "shore"]),
      ("mountain", ["mountain", "gunung", "peak", "alpine", "hiking"]),
      ("temple", ["temple", "candi", "shrine", "pagoda", "religious"]),
      ("museum", ["museum", "gallery", "art", "historical"]),
      ("city", ["city", "kota", "town", "urban", "metropolitan"]),
      ("nature", ["park", "forest", "nature", "hutan", "taman", "alam"]),
      ("water", ["lake", "danau", "waterfall", "air terjun", "geyser"])
    ]
  }

  const DefaultCategory := "Attraction"

  /** `any(kw in text for kw in keywords)` */
  predicate AnyKeywordIn(text: string, keywords: seq<string>) {
    exists i :: 0 <= i < |keywords| && Contains(text, keywords[i])
  }

  /** The position of the first category, from the `k`-th on, with a keyword inside `text`. */
  function CategoryFrom(text: string, k: nat): (r: Option<nat>)
    requires k <= |CategoryKeywords()|
    ensures r.Some? ==> k <= r.value < |CategoryKeywords()| && AnyKeywordIn(text, CategoryKeywords()[r.value].1)
    ensures r.Some? ==> forall l :: k <= l < r.value ==> !AnyKeywordIn(text, CategoryKeywords()[l].1)
    ensures r.None? ==> forall l :: k <= l < |CategoryKeywords()| ==> !AnyKeywordIn(text, CategoryKeywords()[l].1)
    decreases |CategoryKeywords()| - k
  {
    if k == |CategoryKeywords()| then None
    else if AnyKeywordIn(text, CategoryKeywords()[k].1) then Some(k)
    else CategoryFrom(text, k + 1)
  }

  /** The category guessed from a name: the title-cased first category with a keyword in the lower-cased name. */
  function CategoryOf(name: string): string {
    match CategoryFrom(Lower(name), 0)
    case None => DefaultCategory
    case Some(k) => Title(CategoryKeywords()[k].0)
  }

  /** The category of the `i`-th row: from its `nama` when that column exists, else the default. */
  function RowCategory(t: Table, i: nat, render: real -> string): string
    requires WellFormed(t) && i < |t.rows|
  {
    if "nama" in t.columns then CategoryOf(CellText(At(t, i, "nama"), render)) else DefaultCategory
  }

  /** The derived `kota` of a `provinsi` cell: the stripped text before its first comma, or "Unknown" when missing. */
  function CityOf(c: Cell, render: real -> string): (r: Cell)
    ensures r.Text?
  {
    match c
    case Missing => Text("Unknown")
    case Text(s) => Text(Strip(BeforeComma(s)))
    case Num(x) => Text(Strip(BeforeComma(render(x))))
  }

  function Categories(t: Table, render: real -> string): (cells: seq<Cell>)
    requires WellFormed(t)
    ensures |cells| == |t.rows|
    ensures forall i :: 0 <= i < |t.rows| ==> cells[i] == Text(RowCategory(t, i, render))
  {
    seq(|t.rows|, i requires 0 <= i < |t.rows| => Text(RowCategory(t, i, render)))
  }

  function Cities(t: Table, render: real -> string): (cells: seq<Cell>)
    requires WellFormed(t) && "provinsi" in t.columns
    ensures |cells| == |t.rows|
    ensures forall i :: 0 <= i < |t.rows| ==> cells[i] == CityOf(At(t, i, "provinsi"), render)
  {
    seq(|t.rows|, i requires 0 <= i < |t.rows| => CityOf(At(t, i, "provinsi"), render))
  }

  function EmptyColumn(n: nat): (cells: seq<Cell>)
    ensures |cells| == n && forall i :: 0 <= i < n ==> cells[i] == Missing
  {
    seq(n, i => Missing)
  }

  function WithCategory(t: Table, render: real -> string): Table
    requires WellFormed(t)
  {
    if "kategori" in t.columns then t else SetColumn(t, "kategori", Categories(t, render))
  }

  function WithRating(t: Table): Table
    requires WellFormed(t)
  {
    if "rating" in t.columns then t else SetColumn(t, "rating", EmptyColumn(|t.rows|))
  }

  function WithCity(t: Table, render: real -> string): Table
    requires WellFormed(t)
  {
    if "kota" !in t.columns && "provinsi" in t.columns then SetColumn(t, "kota", Cities(t, render)) else t
  }

  /** The table `create_synthetic_columns` returns. */
  function Synthesize(t: Table, render: real -> string): (r: Table)
    requires WellFormed(t)
    ensures WellFormed(r) && |r.rows| == |t.rows|
  {
    WithCity(WithRating(WithCategory(t, render)), render)
  }

  /**
   * The category guessed for one name: the categories are tried in order
   * and the first with a keyword in the lower-cased name is taken.
   */
  method GuessCategory(name: string) returns (cat: string)
    ensures cat == CategoryOf(name)
  {
    var table := CategoryKeywords();
    var text := Lower(name);
    cat := DefaultCategory;
    for k := 0 to |table|
      invariant cat == DefaultCategory
      invariant CategoryFrom(text, 0) == CategoryFrom(text, k)
    {
      if AnyKeywordIn(text, table[k].1) {
        cat := Title(table[k].0);
        break;
      }
    }
  }

  /** The `iterrows` loop of `create_synthetic_columns`: one guessed category per row. */
  method GuessCategories(t: Table, render: real -> string) returns (categories: seq<Cell>)
    requires WellFormed(t)
    ensures categories == Categories(t, render)
  {
    categories := [];
    for i := 0 to |t.rows|
      invariant categories == Categories(t, render)[..i]
    {
      var cat := DefaultCategory;
      if "nama" in t.columns {
        cat := GuessCategory(CellText(At(t, i, "nama"), render));
      }
      categories := categories + [Text(cat)];
    }
  }

  /** `create_synthetic_columns`: each of the three columns is added only when absent. */
  method CreateSyntheticColumns(t: Table, render: real -> string) returns (r: Table)
    requires WellFormed(t)
    ensures r == Synthesize(t, render)
  {
    r := t;
    if "kategori" !in r.columns {
      var categories := GuessCategories(r, render);
      r := SetColumn(r, "kategori", categories);
    }
    if "rating" !in r.columns {
      r := SetColumn(r, "rating", EmptyColumn(|r.rows|));
    }
    if "kota" !in r.columns && "provinsi" in r.columns {
      r := SetColumn(r, "kota", Cities(r, render));
    }
  }

  lemma WithCategoryExtends(t: Table, render: real -> string)
    requires WellFormed(t)
    ensures Extends(WithCategory(t, render), t)
  {
    if "kategori" !in t.columns {
      SetNewColumnExtends(t, "kategori", Categories(t, render));
    }
  }

  lemma WithRatingExtends(t: Table)
    requires WellFormed(t)
    ensures Extends(WithRating(t), t)
  {
    if "rating" !in t.columns {
      SetNewColumnExtends(t, "rating", EmptyColumn(|t.rows|));
    }
  }

  lemma WithCityExtends(t: Table, render: real -> string)
    requires WellFormed(t)
    ensures Extends(WithCity(t, render), t)
  {
    if "kota" !in t.columns && "provinsi" in t.columns {
      SetNewColumnExtends(t, "kota", Cities(t, render));
    }
  }

  /** The generator only appends columns: existing ones keep their names, positions and cells. */
  lemma SynthesizeKeepsExisting(t: Table, render: real -> string)
    requires WellFormed(t)
    ensures Extends(Synthesize(t, render), t)
  {
    var t1 := WithCategory(t, render);
    var t2 := WithRating(t1);
    WithCategoryExtends(t, render);
    WithRatingExtends(t1);
    WithCityExtends(t2, render);
    ExtendsTransitive(t2, t1, t);
    ExtendsTransitive(Synthesize(t, render), t2, t);
  }

  /** After the generator the table has a `kategori` and a `rating` column, and a `kota` one whenever it has `provinsi`. */
  lemma SynthesizeAddsColumns(t: Table, render: real -> string)
    requires WellFormed(t)
    ensures var r := Synthesize(t, render);
      "kategori" in r.columns && "rating" in r.columns
      && ("provinsi" in t.columns ==> "kota" in r.columns)
  {
  }

  /** A column that was already present keeps every cell. */
  lemma SynthesizeKeepsCells(t: Table, render: real -> string, name: string, i: nat)
    requires WellFormed(t) && name in t.columns && i < |t.rows|
    ensures var r := Synthesize(t, render); name in r.columns && At(r, i, name) == At(t, i, name)
  {
    var t1 := WithCategory(t, render);
    var t2 := WithRating(t1);
    if "kategori" !in t.columns {
      SetColumnKeeps(t, "kategori", Categories(t, render), name, i);
    }
    if "rating" !in t1.columns {
      SetColumnKeeps(t1, "rating", EmptyColumn(|t1.rows|), name, i);
    }
    if "kota" !in t2.columns && "provinsi" in t2.columns {
      SetColumnKeeps(t2, "kota", Cities(t2, render), name, i);
    }
  }

  /** A derived `kategori` holds the category guessed from the row's `nama`. */
  lemma DerivedCategory(t: Table, render: real -> string, i: nat)
    requires WellFormed(t) && "kategori" !in t.columns && i < |t.rows|
    ensures At(Synthesize(t, render), i, "kategori") == Text(RowCategory(t, i, render))
  {
    var t1 := WithCategory(t, render);
    var t2 := WithRating(t1);
    if "rating" !in t1.columns {
      SetColumnKeeps(t1, "rating", EmptyColumn(|t1.rows|), "kategori", i);
    }
    if "kota" !in t2.columns && "provinsi" in t2.columns {
      SetColumnKeeps(t2, "kota", Cities(t2, render), "kategori", i);
    }
  }

  /** A created `rating` column is entirely missing. */
  lemma DerivedRating(t: Table, render: real -> string, i: nat)
    requires WellFormed(t) && "rating" !in t.columns && i < |t.rows|
    ensures At(Synthesize(t, render), i, "rating") == Missing
  {
    var t1 := WithCategory(t, render);
    var t2 := WithRating(t1);
    if "kota" !in t2.columns && "provinsi" in t2.columns {
      SetColumnKeeps(t2, "kota", Cities(t2, render), "rating", i);
    }
  }

  /** A derived `kota` holds the city read from the row's `provinsi`. */
  lemma DerivedCity(t: Table, render: real -> string, i: nat)
    requires WellFormed(t) && "kota" !in t.columns && "provinsi" in t.columns && i < |t.rows|
    ensures At(Synthesize(t, render), i, "kota") == CityOf(At(t, i, "provinsi"), render)
  {
    var t1 := WithCategory(t, render);
    var t2 := WithRating(t1);
    if "kategori" !in t.columns {
      SetColumnKeeps(t, "kategori", Categories(t, render), "provinsi", i);
    }
    if "rating" !in t1.columns {
      SetColumnKeeps(t1, "rating", EmptyColumn(|t1.rows|), "provinsi", i);
    }
    assert "kota" !in t2.columns;
  }

  /** A derived `kota` never holds a comma and is "Unknown" for a missing province. */
  lemma CityShape(c: Cell, render: real -> string)
    ensures ',' !in CityOf(c, render).s
    ensures c == Missing ==> CityOf(c, render) == Text("Unknown")
  {
    match c
    case Missing =>
    case Text(s) => StripKeepsOut(BeforeComma(s), ',');
    case Num(x) => StripKeepsOut(BeforeComma(render(x)), ',');
  }

  /** Any name holding "pantai" is a beach, whatever else it holds: the beach keywords are tried first. */
  lemma PantaiIsBeach(name: string)
    requires Contains(Lower(name), "pantai")
    ensures CategoryOf(name) == "Beach"
  {
    assert CategoryKeywords()[0].1[1] == "pantai";
    TitleByChars("beach", "Beach");
  }
}
