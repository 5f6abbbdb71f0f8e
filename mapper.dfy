/**
 * The column mapper (`map_columns`): renames foreign column names onto the
 * seven standard names by looking them up in an ordered synonym table.
 */
module ColumnMapper {
  import opened Strings
  import opened Tables

  /** The standard names in the order the mapper visits them, each with its synonyms in table order. */
  function SynonymTable(): seq<(string, seq<string>)> {
    [
      ("nama", [
        "name", "destinasi", "tempat", "lokasi", "wisata", "objek", "attraction",
        "title", "site name", "place", "destination", "nama tempat", "object",
        "attraction name", "site", "location name", "nama lokasi"]),
      ("provinsi", [
        "province", "provinsi", "state", "region", "daerah", "country",
        "negara", "country/region", "area", "province/state", "administrative region",
        "location", "wilayah", "negara/region", "state/region"]),
      ("kota", [
        "city", "kota", "kabupaten", "kab/kota", "kota/kab", "town",
        "municipality", "district", "kecamatan", "locality", "city/town",
        "kota/kabupaten"]),
      ("kategori", [
        "category", "kategori", "tipe", "type", "jenis", "kind", "classification",
        "site category", "attraction type", "category type", "classification type",
        "kategori wisata", "jenis wisata"]),
      ("rating", [
        "rating", "nilai", "score", "review", "rank", "rate", "stars",
        "elevation", "height", "grade", "nilai rating"]),
      ("harga", [
        "price", "harga", "biaya", "cost", "tarif", "admission", "fee",
        "entry fee", "entrance fee", "ticket price", "biaya masuk"]),
      ("deskripsi", [
        "description", "deskripsi", "keterangan", "detail", "remarks",
        "notes", "info", "information", "catatan", "penjelasan", "info detail"])
    ]
  }

  /** The standard names of a synonym table, in table order. */
  function Names(table: seq<(string, seq<string>)>): (r: seq<string>)
    ensures |r| == |table|
    ensures forall k :: 0 <= k < |table| ==> r[k] == table[k].0
  {
    seq(|table|, k requires 0 <= k < |table| => table[k].0)
  }

  lemma StandardNamesDistinct()
    ensures Names(SynonymTable()) == ["nama", "provinsi", "kota", "kategori", "rating", "harga", "deskripsi"]
    ensures Distinct(Names(SynonymTable()))
  {
  }

  /**
   * A source column matches a synonym list when its lower-cased, stripped
   * name is one of the synonyms or contains a synonym longer than two characters.
   */
  predicate Matches(col: string, synonyms: seq<string>) {
    KeyMatches(Key(col), synonyms)
  }

  predicate KeyMatches(key: string, synonyms: seq<string>) {
    key in synonyms || SynonymOccurs(key, synonyms, 0)
  }

  /** `col.lower().strip()` */
  function Key(col: string): string {
    Strip(Lower(col))
  }

  /** `any(pn in key for pn in synonyms[i:] if len(pn) > 2)` */
  predicate SynonymOccurs(key: string, synonyms: seq<string>, i: nat)
    decreases |synonyms| - i
  {
    i < |synonyms| && ((|synonyms[i]| > 2 && Contains(key, synonyms[i])) || SynonymOccurs(key, synonyms, i + 1))
  }

  lemma {:induction false} SynonymOccursIff(key: string, synonyms: seq<string>, i: nat)
    ensures SynonymOccurs(key, synonyms, i) <==>
      exists j :: i <= j < |synonyms| && |synonyms[j]| > 2 && Contains(key, synonyms[j])
    decreases |synonyms| - i
  {
    if i < |synonyms| {
      SynonymOccursIff(key, synonyms, i + 1);
    }
  }

  /** The position of the first source column at or after `i`, in column order, that matches `synonyms`. */
  function FirstMatch(cols: seq<string>, synonyms: seq<string>, i: nat): (r: Option<nat>)
    requires i <= |cols|
    ensures r.Some? ==> i <= r.value < |cols| && Matches(cols[r.value], synonyms)
    ensures r.Some? ==> forall j :: i <= j < r.value ==> !Matches(cols[j], synonyms)
    ensures r.None? ==> forall j :: i <= j < |cols| ==> !Matches(cols[j], synonyms)
    decreases |cols| - i
  {
    if i == |cols| then None
    else if Matches(cols[i], synonyms) then Some(i)
    else FirstMatch(cols, synonyms, i + 1)
  }

  /**
   * The source column the `k`-th standard name claims: none when that
   * standard name is already a column, else the first matching column.
   */
  function Candidate(table: seq<(string, seq<string>)>, cols: seq<string>, k: nat): Option<string>
    requires k < |table|
  {
    if table[k].0 in cols then None
    else match FirstMatch(cols, table[k].1, 0)
      case None => None
      case Some(j) => Some(cols[j])
  }

  /** What each standard name claims, in table order. */
  function Claims(table: seq<(string, seq<string>)>, cols: seq<string>): (r: seq<Option<string>>)
    ensures |r| == |table|
    ensures forall k :: 0 <= k < |table| ==> r[k] == Candidate(table, cols, k)
  {
    seq(|table|, k requires 0 <= k < |table| => Candidate(table, cols, k))
  }

  /**
   * The rename map `mapped_cols` after visiting the first `n` standard
   * names: each claim is written into the map, so a later claim of the same
   * column replaces an earlier one.
   */
  function Mapping(names: seq<string>, claims: seq<Option<string>>, n: nat): map<string, string>
    requires n <= |names| == |claims|
  {
    if n == 0 then map[]
    else
      var m := Mapping(names, claims, n - 1);
      match claims[n - 1]
      case None => m
      case Some(c) => m[c := names[n - 1]]
  }

  function ColumnMapping(cols: seq<string>): map<string, string> {
    var table := SynonymTable();
    Mapping(Names(table), Claims(table, cols), |table|)
  }

  /** `df.rename(columns=mapped)` */
  function RenameColumns(cols: seq<string>, mapped: map<string, string>): (r: seq<string>)
    ensures |r| == |cols|
    ensures forall j :: 0 <= j < |cols| ==> r[j] == if cols[j] in mapped then mapped[cols[j]] else cols[j]
  {
    seq(|cols|, j requires 0 <= j < |cols| => if cols[j] in mapped then mapped[cols[j]] else cols[j])
  }

  /**
   * The nested loops of `map_columns` over a synonym table: standard names
   * outside, source columns inside, stopping at the first column that
   * matches, each claim written into the rename map.
   */
  method FillMapping(table: seq<(string, seq<string>)>, cols: seq<string>) returns (mapped: map<string, string>)
    ensures mapped == Mapping(Names(table), Claims(table, cols), |table|)
  {
    ghost var names, claims := Names(table), Claims(table, cols);
    mapped := map[];
    for k := 0 to |table|
      invariant mapped == Mapping(names, claims, k)
    {
      var (standard, possible) := table[k];
      assert names[k] == standard && claims[k] == Candidate(table, cols, k);
      for j := 0 to |cols|
        invariant mapped == Mapping(names, claims, k)
        invariant standard !in cols ==> FirstMatch(cols, possible, 0) == FirstMatch(cols, possible, j)
      {
        if Matches(cols[j], possible) {
          if standard !in cols {
            mapped := mapped[cols[j] := standard];
            break;
          }
        }
      }
    }
  }

  /** `map_columns`: fills the rename map from the synonym table and renames the table's columns with it. */
  method MapColumns(t: Table) returns (r: Table)
    ensures r == Table(RenameColumns(t.columns, ColumnMapping(t.columns)), t.rows)
  {
    var mapped := FillMapping(SynonymTable(), t.columns);
    r := Table(RenameColumns(t.columns, mapped), t.rows);
  }

  /** A claim is always of a source column, by a standard name that is not already a column. */
  lemma ClaimsAreNewNames(table: seq<(string, seq<string>)>, cols: seq<string>, k: nat)
    requires k < |table| && Claims(table, cols)[k].Some?
    ensures Claims(table, cols)[k].value in cols && table[k].0 !in cols
  {
  }

  /** The map's keys are claimed columns and its values are standard names. */
  lemma {:induction false} MappingShape(names: seq<string>, claims: seq<Option<string>>, n: nat, c: string)
    requires n <= |names| == |claims|
    requires c in Mapping(names, claims, n)
    ensures exists k :: 0 <= k < n && claims[k] == Some(c) && Mapping(names, claims, n)[c] == names[k]
  {
    if claims[n - 1] != Some(c) {
      MappingShape(names, claims, n - 1, c);
    }
  }

  /**
   * Which standard name a column ends up with: the `k`-th one exactly when
   * that name claims the column and no later standard name claims it.
   */
  lemma {:induction false} MappingLastClaimWins(names: seq<string>, claims: seq<Option<string>>, n: nat, c: string, k: nat)
    requires k < n <= |names| == |claims| && Distinct(names)
    ensures (c in Mapping(names, claims, n) && Mapping(names, claims, n)[c] == names[k]) <==>
      (claims[k] == Some(c) && forall l :: k < l < n ==> claims[l] != Some(c))
  {
    if n == k + 1 {
      if claims[k] != Some(c) && c in Mapping(names, claims, k) {
        MappingShape(names, claims, k, c);
      }
    } else {
      MappingLastClaimWins(names, claims, n - 1, c, k);
    }
  }

  /** A column is renamed exactly when some standard name claims it. */
  lemma {:induction false} MappingDomain(names: seq<string>, claims: seq<Option<string>>, n: nat, c: string)
    requires n <= |names| == |claims|
    ensures c in Mapping(names, claims, n) <==> exists k :: 0 <= k < n && claims[k] == Some(c)
  {
    if n > 0 {
      MappingDomain(names, claims, n - 1, c);
    }
  }

  /** Every renamed column gets a standard name that is not already a column. */
  lemma MappingTargetsAbsent(cols: seq<string>, c: string)
    requires c in ColumnMapping(cols)
    ensures c in cols && ColumnMapping(cols)[c] !in cols
    ensures ColumnMapping(cols)[c] in Names(SynonymTable())
  {
    var table := SynonymTable();
    var claims := Claims(table, cols);
    MappingShape(Names(table), claims, |table|, c);
    var k :| 0 <= k < |table| && claims[k] == Some(c) && ColumnMapping(cols)[c] == Names(table)[k];
    ClaimsAreNewNames(table, cols, k);
  }

  /** No two source columns are renamed to the same standard name. */
  lemma MappingInjective(cols: seq<string>, c: string, d: string)
    requires c in ColumnMapping(cols) && d in ColumnMapping(cols) && c != d
    ensures ColumnMapping(cols)[c] != ColumnMapping(cols)[d]
  {
    var table := SynonymTable();
    var names, claims := Names(table), Claims(table, cols);
    StandardNamesDistinct();
    MappingShape(names, claims, |table|, c);
    var k :| 0 <= k < |table| && claims[k] == Some(c) && ColumnMapping(cols)[c] == names[k];
    MappingLastClaimWins(names, claims, |table|, c, k);
    MappingLastClaimWins(names, claims, |table|, d, k);
  }

  /** Renaming keeps the column names distinct when they were distinct. */
  lemma RenamedDistinct(cols: seq<string>)
    requires Distinct(cols)
    ensures Distinct(RenameColumns(cols, ColumnMapping(cols)))
  {
    var m := ColumnMapping(cols);
    var r := RenameColumns(cols, m);
    forall i, j | 0 <= i < j < |r|
      ensures r[i] != r[j]
    {
      if cols[i] in m {
        MappingTargetsAbsent(cols, cols[i]);
      }
      if cols[j] in m {
        MappingTargetsAbsent(cols, cols[j]);
      }
      if cols[i] in m && cols[j] in m {
        MappingInjective(cols, cols[i], cols[j]);
      }
    }
  }

  /** When all seven standard names are already columns, nothing is renamed. */
  lemma AllStandardPresentRenamesNothing(cols: seq<string>)
    requires forall s :: s in Names(SynonymTable()) ==> s in cols
    ensures ColumnMapping(cols) == map[]
    ensures RenameColumns(cols, ColumnMapping(cols)) == cols
  {
    var table := SynonymTable();
    var names, claims := Names(table), Claims(table, cols);
    forall k | 0 <= k < |table|
      ensures claims[k] == None
    {
      assert names[k] in names;
    }
    forall c
      ensures c !in ColumnMapping(cols)
    {
      MappingDomain(names, claims, |table|, c);
    }
  }
}
