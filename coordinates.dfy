/**
 * The coordinate resolver (`extract_coordinates`): rows without a valid
 * latitude/longitude pair get the coordinates of the first gazetteer place
 * named in their location columns, and `validate_coordinates` /
 * `validate_data`, which judge the result.
 */
module Coordinates {
  import opened Strings
  import opened Tables
  import opened Gazetteer

  /** The lower-cased column names that count as location columns. */
  function LocationNames(): seq<string> {
    ["provinsi", "kota", "lokasi", "nama", "destinasi", "province", "city", "location"]
  }

  predicate IsLocationName(c: string) {
    Lower(c) in LocationNames()
  }

  /** `location_cols`: the columns whose lower-cased name is a location name, in column order. */
  function LocationColumns(cols: seq<string>): (r: seq<string>)
    ensures forall c :: c in r <==> c in cols && Lower(c) in LocationNames()
    ensures exists idx: seq<nat> :: PicksAt(r, cols, idx) && forall j :: 0 <= j < |cols| ==> (j in idx <==> Lower(cols[j]) in LocationNames())
  {
    Filter(cols, IsLocationName)
  }

  /**
   * The lower-cased, stripped text of a location cell, or none when the
   * text is empty or reads "nan" in any case (a missing cell among them).
   */
  function LocationText(c: Cell, render: real -> string): Option<string> {
    var s := Strip(CellText(c, render));
    if s == [] || Lower(s) == "nan" then None else Some(Lower(s))
  }

  /** The two gazetteers the resolver searches: tourism places first, then provinces. */
  datatype Gazetteers = Gazetteers(tourism: seq<Place>, provinces: seq<Place>)

  function Indonesia(): Gazetteers {
    Gazetteers(TourismPlaces(), ProvincePlaces())
  }

  /**
   * The place a location text names: the first tourism place in list order,
   * else the province the longest-first search finds (the longest occurring
   * name, the earliest among equally long ones); none when no name of
   * either gazetteer occurs.
   */
  function PlaceFor(text: string, g: Gazetteers): (r: Option<Place>)
    ensures r.Some? ==> r.value in g.tourism || r.value in g.provinces
    ensures FirstPlaceIn(text, g.tourism).Some? ==> r == FirstPlaceIn(text, g.tourism)
    ensures FirstPlaceIn(text, g.tourism).None? ==> r == BestPlaceIn(text, g.provinces)
    ensures r.None? <==> ((forall j :: 0 <= j < |g.tourism| ==> !Occurs(text, g.tourism[j]))
      && (forall j :: 0 <= j < |g.provinces| ==> !Occurs(text, g.provinces[j])))
  {
    LongestFirstFindsBest(text, g.provinces);
    match FirstPlaceIn(text, g.tourism)
    case Some(p) => Some(p)
    case None =>
      var r := FirstPlaceIn(text, LongestFirst(g.provinces));
      if r.Some? then LongestFirstMember(g.provinces, r.value); r else r
  }

  /** The cell of column `c` holds a usable text that names a place. */
  predicate NamesPlace(t: Table, i: nat, c: string, g: Gazetteers, render: real -> string)
    requires WellFormed(t) && i < |t.rows| && c in t.columns
  {
    var text := LocationText(At(t, i, c), render);
    text.Some? && PlaceFor(text.value, g).Some?
  }

  /**
   * The place named by the first location column, from the `j`-th on,
   * whose text is usable and names a place; none when no such column follows.
   */
  function PlaceFrom(t: Table, i: nat, locs: seq<string>, j: nat, g: Gazetteers, render: real -> string): (r: Option<Place>)
    requires WellFormed(t) && i < |t.rows| && j <= |locs|
    requires forall c :: c in locs ==> c in t.columns
    ensures r.None? <==> forall k :: j <= k < |locs| ==> !NamesPlace(t, i, locs[k], g, render)
    ensures r.Some? ==> exists k :: (j <= k < |locs| && NamesPlace(t, i, locs[k], g, render)
      && PlaceFor(LocationText(At(t, i, locs[k]), render).value, g) == r
      && forall m :: j <= m < k ==> !NamesPlace(t, i, locs[m], g, render))
    decreases |locs| - j
  {
    if j == |locs| then None
    else if NamesPlace(t, i, locs[j], g, render) then PlaceFor(LocationText(At(t, i, locs[j]), render).value, g)
    else
      var r := PlaceFrom(t, i, locs, j + 1, g, render);
      assert r.Some? ==> exists k :: (j <= k < |locs| && NamesPlace(t, i, locs[k], g, render)
        && PlaceFor(LocationText(At(t, i, locs[k]), render).value, g) == r
        && forall m :: j <= m < k ==> !NamesPlace(t, i, locs[m], g, render)) by {
        if r.Some? {
          var k :| j + 1 <= k < |locs| && NamesPlace(t, i, locs[k], g, render)
            && PlaceFor(LocationText(At(t, i, locs[k]), render).value, g) == r
            && forall m :: j + 1 <= m < k ==> !NamesPlace(t, i, locs[m], g, render);
        }
      }
      r
  }

  predicate HasCoordinateColumns(t: Table) {
    "latitude" in t.columns && "longitude" in t.columns
  }

  /** The row's latitude and longitude both read as numbers inside the valid ranges. */
  predicate HasValidCoordinates(t: Table, i: nat, parse: string -> Option<real>)
    requires WellFormed(t) && HasCoordinateColumns(t) && i < |t.rows|
  {
    var lat := ToNumeric(At(t, i, "latitude"), parse);
    var lon := ToNumeric(At(t, i, "longitude"), parse);
    lat.Some? && lon.Some? && InRange(lat.value, lon.value)
  }

  /** When either coordinate column is absent, both are (re)created empty. */
  function WithCoordinateColumns(t: Table): (r: Table)
    requires WellFormed(t)
    ensures WellFormed(r) && HasCoordinateColumns(r) && |r.rows| == |t.rows|
    ensures HasCoordinateColumns(t) ==> r == t
    ensures forall c :: c in t.columns ==> c in r.columns
    ensures !HasCoordinateColumns(t) ==> forall i :: 0 <= i < |t.rows| ==> At(r, i, "latitude") == Missing && At(r, i, "longitude") == Missing
    ensures forall c, i :: c in t.columns && c != "latitude" && c != "longitude" && 0 <= i < |t.rows| ==> At(r, i, c) == At(t, i, c)
  {
    if HasCoordinateColumns(t) then t
    else
      var t1 := SetColumn(t, "latitude", seq(|t.rows|, i => Missing));
      var r := SetColumn(t1, "longitude", seq(|t1.rows|, i => Missing));
      assert forall i :: 0 <= i < |t.rows| ==> At(r, i, "latitude") == Missing by {
        forall i | 0 <= i < |t.rows| {
          SetColumnKeeps(t1, "longitude", seq(|t1.rows|, i => Missing), "latitude", i);
        }
      }
      assert forall c, i :: c in t.columns && c != "latitude" && c != "longitude" && 0 <= i < |t.rows| ==> At(r, i, c) == At(t, i, c) by {
        forall c, i | c in t.columns && c != "latitude" && c != "longitude" && 0 <= i < |t.rows|
          ensures At(r, i, c) == At(t, i, c)
        {
          SetColumnKeeps(t, "latitude", seq(|t.rows|, i => Missing), c, i);
          SetColumnKeeps(t1, "longitude", seq(|t1.rows|, i => Missing), c, i);
        }
      }
      r
  }

  /** The `i`-th row after resolution: kept when valid or when no place is found, else given the place's coordinates. */
  function ResolvedRow(t: Table, i: nat, locs: seq<string>, g: Gazetteers, parse: string -> Option<real>, render: real -> string): seq<Cell>
    requires WellFormed(t) && HasCoordinateColumns(t) && i < |t.rows|
    requires forall c :: c in locs ==> c in t.columns
  {
    if HasValidCoordinates(t, i, parse) then t.rows[i]
    else match PlaceFrom(t, i, locs, 0, g, render)
      case None => t.rows[i]
      case Some(p) =>
        t.rows[i][Position(t.columns, "latitude") := Num(p.lat)][Position(t.columns, "longitude") := Num(p.lon)]
  }

  /** The table `extract_coordinates` returns for a non-empty table. */
  function Resolve(t: Table, g: Gazetteers, parse: string -> Option<real>, render: real -> string): (r: Table)
    requires WellFormed(t)
    ensures WellFormed(r) && HasCoordinateColumns(r)
    ensures r.columns == WithCoordinateColumns(t).columns && |r.rows| == |t.rows|
  {
    ResolveIn(WithCoordinateColumns(t), g, parse, render)
  }

  /** The row loop over a table that has both coordinate columns. */
  function ResolveIn(t: Table, g: Gazetteers, parse: string -> Option<real>, render: real -> string): (r: Table)
    requires WellFormed(t) && HasCoordinateColumns(t)
    ensures WellFormed(r) && r.columns == t.columns && |r.rows| == |t.rows|
  {
    var locs := LocationColumns(t.columns);
    if locs == [] then t
    else Table(t.columns, ResolvedRows(t, locs, g, parse, render))
  }

  function ResolvedRows(t: Table, locs: seq<string>, g: Gazetteers, parse: string -> Option<real>, render: real -> string): (rows: seq<seq<Cell>>)
    requires WellFormed(t) && HasCoordinateColumns(t)
    requires forall c :: c in locs ==> c in t.columns
    ensures |rows| == |t.rows|
    ensures forall i :: 0 <= i < |t.rows| ==> rows[i] == ResolvedRow(t, i, locs, g, parse, render)
  {
    seq(|t.rows|, i requires 0 <= i < |t.rows| => ResolvedRow(t, i, locs, g, parse, render))
  }

  /** `extract_coordinates` with the gazetteers `g` (the source always builds `Indonesia()`): none for an empty table. */
  function ExtractCoordinatesSpec(t: Table, g: Gazetteers, parse: string -> Option<real>, render: real -> string): Option<Table>
    requires WellFormed(t)
  {
    if |t.rows| == 0 then None else Some(Resolve(t, g, parse, render))
  }

  /** The first place of `ps` named in `text`, trying the places in order. */
  method FindPlace(text: string, ps: seq<Place>) returns (found: Option<Place>)
    ensures found == FirstPlaceIn(text, ps)
  {
    found := None;
    for k := 0 to |ps|
      invariant FirstPlaceIn(text, ps) == FirstPlaceIn(text, ps[k..])
    {
      assert ps[k..][1..] == ps[k + 1..];
      if Occurs(text, ps[k]) {
        found := Some(ps[k]);
        return;
      }
    }
  }

  /**
   * The location-column loop of `extract_coordinates` for one row without
   * valid coordinates: the columns are tried in order, each usable text is
   * looked up among the tourism places and then among the provinces
   * sorted longest first, and the first place found sets the row's coordinates.
   */
  method ResolveRow(r: Table, i: nat, locs: seq<string>, g: Gazetteers, parse: string -> Option<real>, render: real -> string)
    returns (row: seq<Cell>)
    requires WellFormed(r) && HasCoordinateColumns(r) && i < |r.rows|
    requires forall c :: c in locs ==> c in r.columns
    requires !HasValidCoordinates(r, i, parse)
    ensures row == ResolvedRow(r, i, locs, g, parse, render)
  {
    var latPos, lonPos := Position(r.columns, "latitude"), Position(r.columns, "longitude");
    var found := false;
    row := r.rows[i];
    for j := 0 to |locs|
      invariant !found ==> row == r.rows[i]
      invariant !found ==> PlaceFrom(r, i, locs, 0, g, render) == PlaceFrom(r, i, locs, j, g, render)
      invariant found ==> row == ResolvedRow(r, i, locs, g, parse, render)
    {
      if found {
        break;
      }
      var text := LocationText(At(r, i, locs[j]), render);
      if text.None? {
        continue;
      }
      var place := FindPlace(text.value, g.tourism);
      if place.None? {
        var sorted := LongestFirst(g.provinces);
        place := FindPlace(text.value, sorted);
      }
      assert place == PlaceFor(text.value, g);
      if place.Some? {
        row := row[latPos := Num(place.value.lat)][lonPos := Num(place.value.lon)];
        found := true;
      }
    }
  }

  /** The row loop of `extract_coordinates`: rows with valid coordinates are skipped, the others resolved. */
  method ResolveRows(r: Table, locs: seq<string>, g: Gazetteers, parse: string -> Option<real>, render: real -> string)
    returns (rows: seq<seq<Cell>>)
    requires WellFormed(r) && HasCoordinateColumns(r)
    requires forall c :: c in locs ==> c in r.columns
    ensures rows == ResolvedRows(r, locs, g, parse, render)
  {
    rows := r.rows;
    for i := 0 to |rows|
      invariant |rows| == |r.rows|
      invariant forall k :: 0 <= k < i ==> rows[k] == ResolvedRow(r, k, locs, g, parse, render)
      invariant forall k :: i <= k < |rows| ==> rows[k] == r.rows[k]
    {
      if !HasValidCoordinates(r, i, parse) {
        var row := ResolveRow(r, i, locs, g, parse, render);
        rows := rows[i := row];
      } else {
        ValidRowSkipped(r, i, locs, g, parse, render);
      }
    }
  }

  lemma ValidRowSkipped(t: Table, i: nat, locs: seq<string>, g: Gazetteers, parse: string -> Option<real>, render: real -> string)
    requires WellFormed(t) && HasCoordinateColumns(t) && i < |t.rows|
    requires forall c :: c in locs ==> c in t.columns
    requires HasValidCoordinates(t, i, parse)
    ensures ResolvedRow(t, i, locs, g, parse, render) == t.rows[i]
  {
  }

  /**
   * `extract_coordinates`: recreates the coordinate columns if needed,
   * then walks the rows, skipping valid ones and resolving the others.
   */
  method ExtractCoordinates(t: Table, g: Gazetteers, parse: string -> Option<real>, render: real -> string) returns (result: Option<Table>)
    requires WellFormed(t)
    ensures result == ExtractCoordinatesSpec(t, g, parse, render)
  {
    if |t.rows| == 0 {
      return None;
    }
    var r := t;
    if "latitude" !in r.columns || "longitude" !in r.columns {
      r := SetColumn(r, "latitude", seq(|r.rows|, i => Missing));
      r := SetColumn(r, "longitude", seq(|r.rows|, i => Missing));
    }
    assert r == WithCoordinateColumns(t);
    var locs := LocationColumns(r.columns);
    if locs == [] {
      return Some(r);
    }
    var rows := ResolveRows(r, locs, g, parse, render);
    return Some(Table(r.columns, rows));
  }

  /** `validate_coordinates` for one row: both cells are numbers inside the valid ranges. */
  predicate ValidCoordinate(lat: Cell, lon: Cell) {
    lat.Num? && lon.Num? && InRange(lat.x, lon.x)
  }

  /** `validate_coordinates`: one flag per row, all false when a coordinate column is absent. */
  function ValidateCoordinates(t: Table): (r: seq<bool>)
    requires WellFormed(t)
    ensures |r| == |t.rows|
    ensures !HasCoordinateColumns(t) ==> forall i :: 0 <= i < |r| ==> !r[i]
    ensures HasCoordinateColumns(t) ==> forall i :: 0 <= i < |r| ==>
      (r[i] <==> ValidCoordinate(At(t, i, "latitude"), At(t, i, "longitude")))
  {
    if !HasCoordinateColumns(t) then seq(|t.rows|, i => false)
    else seq(|t.rows|, i requires 0 <= i < |t.rows| => ValidCoordinate(At(t, i, "latitude"), At(t, i, "longitude")))
  }

  /** `validate_data`: the table is non-empty and some row has valid coordinates. */
  function ValidateData(t: Table): (ok: bool)
    requires WellFormed(t)
    ensures ok <==> exists i :: 0 <= i < |t.rows| && ValidateCoordinates(t)[i]
  {
    |t.rows| > 0 && HasCoordinateColumns(t) && true in ValidateCoordinates(t)
  }

  /** A row `validate_coordinates` accepts is one `extract_coordinates` skips, whatever the string parser. */
  lemma ValidatedRowIsSkipped(t: Table, i: nat, parse: string -> Option<real>)
    requires WellFormed(t) && i < |t.rows| && ValidateCoordinates(t)[i]
    ensures HasCoordinateColumns(t) && HasValidCoordinates(t, i, parse)
  {
  }

  predicate AllInRange(ps: seq<Place>) {
    forall j :: 0 <= j < |ps| ==> InRange(ps[j].lat, ps[j].lon)
  }

  lemma IndonesiaInRange()
    ensures AllInRange(Indonesia().tourism) && AllInRange(Indonesia().provinces)
  {
    TourismInRange();
    ProvincesInRange();
  }

  /** A place found in gazetteers whose entries are all in range is in range. */
  lemma PlaceForInRange(text: string, g: Gazetteers)
    requires AllInRange(g.tourism) && AllInRange(g.provinces)
    ensures PlaceFor(text, g).Some? ==> InRange(PlaceFor(text, g).value.lat, PlaceFor(text, g).value.lon)
  {
    var r := PlaceFor(text, g);
    if r.Some? {
      if r.value in g.tourism {
        var j :| 0 <= j < |g.tourism| && g.tourism[j] == r.value;
      } else {
        var j :| 0 <= j < |g.provinces| && g.provinces[j] == r.value;
      }
    }
  }

  lemma PlaceFromInRange(t: Table, i: nat, locs: seq<string>, g: Gazetteers, render: real -> string)
    requires WellFormed(t) && i < |t.rows|
    requires forall c :: c in locs ==> c in t.columns
    requires AllInRange(g.tourism) && AllInRange(g.provinces)
    ensures var r := PlaceFrom(t, i, locs, 0, g, render); r.Some? ==> InRange(r.value.lat, r.value.lon)
  {
    var r := PlaceFrom(t, i, locs, 0, g, render);
    if r.Some? {
      var k :| 0 <= k < |locs| && NamesPlace(t, i, locs[k], g, render)
        && PlaceFor(LocationText(At(t, i, locs[k]), render).value, g) == r;
      PlaceForInRange(LocationText(At(t, i, locs[k]), render).value, g);
    }
  }

  /** The location search reads only the row's own cells. */
  lemma {:induction false} PlaceFromSameRow(t: Table, u: Table, i: nat, locs: seq<string>, j: nat, g: Gazetteers, render: real -> string)
    requires WellFormed(t) && WellFormed(u) && i < |t.rows| && i < |u.rows| && j <= |locs|
    requires t.columns == u.columns && t.rows[i] == u.rows[i]
    requires forall c :: c in locs ==> c in t.columns
    ensures PlaceFrom(t, i, locs, j, g, render) == PlaceFrom(u, i, locs, j, g, render)
    decreases |locs| - j
  {
    if j < |locs| {
      SameRowSameCell(t, u, i, locs[j]);
      PlaceFromSameRow(t, u, i, locs, j + 1, g, render);
    }
  }

  lemma SameRowSameCell(t: Table, u: Table, i: nat, name: string)
    requires WellFormed(t) && WellFormed(u) && i < |t.rows| && i < |u.rows|
    requires t.columns == u.columns && t.rows[i] == u.rows[i] && name in t.columns
    ensures At(t, i, name) == At(u, i, name)
  {
  }

  /**
   * A row that already has valid coordinates, or whose location columns
   * name no place, is left as it is, out-of-range values included.
   */
  lemma ResolveKeepsRow(t: Table, g: Gazetteers, parse: string -> Option<real>, render: real -> string, i: nat)
    requires WellFormed(t) && HasCoordinateColumns(t) && i < |t.rows|
    requires HasValidCoordinates(t, i, parse) || PlaceFrom(t, i, LocationColumns(t.columns), 0, g, render).None?
    ensures ResolveIn(t, g, parse, render).rows[i] == t.rows[i]
  {
  }

  /**
   * A row without valid coordinates whose location columns name a place
   * gets that place's latitude and longitude, and keeps every other cell.
   */
  lemma ResolveWritesRow(t: Table, g: Gazetteers, parse: string -> Option<real>, render: real -> string, i: nat, p: Place)
    requires WellFormed(t) && HasCoordinateColumns(t) && i < |t.rows|
    requires !HasValidCoordinates(t, i, parse) && PlaceFrom(t, i, LocationColumns(t.columns), 0, g, render) == Some(p)
    ensures var r := ResolveIn(t, g, parse, render);
      At(r, i, "latitude") == Num(p.lat) && At(r, i, "longitude") == Num(p.lon)
    ensures var r := ResolveIn(t, g, parse, render);
      forall c :: c in t.columns && c != "latitude" && c != "longitude" ==> At(r, i, c) == At(t, i, c)
  {
    var r := ResolveIn(t, g, parse, render);
    assert LocationColumns(t.columns) != [];
    WriteTwoCells(t, r, i, "latitude", "longitude", Num(p.lat), Num(p.lon));
  }

  /**
   * After resolution a row has valid coordinates exactly when it had them
   * before or its location columns name a place.
   */
  lemma ResolveValidIff(t: Table, g: Gazetteers, parse: string -> Option<real>, render: real -> string, i: nat)
    requires WellFormed(t) && HasCoordinateColumns(t) && i < |t.rows|
    requires AllInRange(g.tourism) && AllInRange(g.provinces)
    ensures HasValidCoordinates(ResolveIn(t, g, parse, render), i, parse) <==>
      HasValidCoordinates(t, i, parse) || PlaceFrom(t, i, LocationColumns(t.columns), 0, g, render).Some?
  {
    var r := ResolveIn(t, g, parse, render);
    var q := PlaceFrom(t, i, LocationColumns(t.columns), 0, g, render);
    if !HasValidCoordinates(t, i, parse) && q.Some? {
      ResolveWritesRow(t, g, parse, render, i, q.value);
      PlaceFromInRange(t, i, LocationColumns(t.columns), g, render);
      WrittenCoordinatesValid(r, i, q.value, parse);
    } else {
      ResolveKeepsRow(t, g, parse, render, i);
      SameRowSameValidity(r, t, i, parse);
    }
  }

  lemma WrittenCoordinatesValid(r: Table, i: nat, p: Place, parse: string -> Option<real>)
    requires WellFormed(r) && HasCoordinateColumns(r) && i < |r.rows| && InRange(p.lat, p.lon)
    requires At(r, i, "latitude") == Num(p.lat) && At(r, i, "longitude") == Num(p.lon)
    ensures HasValidCoordinates(r, i, parse) && ValidateCoordinates(r)[i]
  {
  }

  lemma SameRowSameValidity(r: Table, t: Table, i: nat, parse: string -> Option<real>)
    requires WellFormed(r) && WellFormed(t) && HasCoordinateColumns(t) && i < |r.rows| && i < |t.rows|
    requires r.columns == t.columns && r.rows[i] == t.rows[i]
    ensures HasValidCoordinates(r, i, parse) == HasValidCoordinates(t, i, parse)
  {
  }

  /** Every coordinate the resolver writes passes `validate_coordinates`, so `validate_data` then holds. */
  lemma ResolveWritesValidated(t: Table, g: Gazetteers, parse: string -> Option<real>, render: real -> string, i: nat)
    requires WellFormed(t) && HasCoordinateColumns(t) && i < |t.rows|
    requires AllInRange(g.tourism) && AllInRange(g.provinces)
    requires !HasValidCoordinates(t, i, parse) && PlaceFrom(t, i, LocationColumns(t.columns), 0, g, render).Some?
    ensures ValidateCoordinates(ResolveIn(t, g, parse, render))[i]
    ensures ValidateData(ResolveIn(t, g, parse, render))
  {
    var r := ResolveIn(t, g, parse, render);
    var q := PlaceFrom(t, i, LocationColumns(t.columns), 0, g, render);
    ResolveWritesRow(t, g, parse, render, i, q.value);
    PlaceFromInRange(t, i, LocationColumns(t.columns), g, render);
    WrittenCoordinatesValid(r, i, q.value, parse);
  }

  /** Running the row loop a second time changes nothing. */
  lemma ResolveInIdempotent(t: Table, g: Gazetteers, parse: string -> Option<real>, render: real -> string)
    requires WellFormed(t) && HasCoordinateColumns(t)
    requires AllInRange(g.tourism) && AllInRange(g.provinces)
    ensures ResolveIn(ResolveIn(t, g, parse, render), g, parse, render) == ResolveIn(t, g, parse, render)
  {
    var locs := LocationColumns(t.columns);
    var r := ResolveIn(t, g, parse, render);
    if locs != [] {
      var rr := ResolveIn(r, g, parse, render);
      forall i | 0 <= i < |r.rows|
        ensures rr.rows[i] == r.rows[i]
      {
        ResolveRowStable(t, g, parse, render, i);
      }
    }
  }

  /** A row the loop has resolved is left as it is by a second pass. */
  lemma ResolveRowStable(t: Table, g: Gazetteers, parse: string -> Option<real>, render: real -> string, i: nat)
    requires WellFormed(t) && HasCoordinateColumns(t) && i < |t.rows|
    requires AllInRange(g.tourism) && AllInRange(g.provinces)
    ensures var r := ResolveIn(t, g, parse, render); ResolveIn(r, g, parse, render).rows[i] == r.rows[i]
  {
    var r := ResolveIn(t, g, parse, render);
    ResolveValidIff(t, g, parse, render, i);
    if !HasValidCoordinates(r, i, parse) {
      ResolveKeepsRow(t, g, parse, render, i);
      PlaceFromSameRow(r, t, i, LocationColumns(t.columns), 0, g, render);
      ResolveKeepsRow(r, g, parse, render, i);
    } else {
      ResolveKeepsRow(r, g, parse, render, i);
    }
  }

  /** `extract_coordinates` is idempotent on non-empty tables. */
  lemma ResolveIdempotent(t: Table, g: Gazetteers, parse: string -> Option<real>, render: real -> string)
    requires WellFormed(t)
    requires AllInRange(g.tourism) && AllInRange(g.provinces)
    ensures Resolve(Resolve(t, g, parse, render), g, parse, render) == Resolve(t, g, parse, render)
  {
    ResolveInIdempotent(WithCoordinateColumns(t), g, parse, render);
  }

  /** The whole text "bali" resolves to the first tourism entry, Bali itself. */
  lemma BaliResolves()
    ensures PlaceFor("bali", Indonesia()) == Some(Place("Bali", -8.6705, 115.2126))
  {
    LowerByChars("Bali", "bali");
    ContainsAt("bali", "bali");
    assert OccursAt("bali", "bali", 0);
  }

  /** A place whose name holds, once lower-cased, a character absent from `text` does not occur in it. */
  lemma AbsentCharExcludes(text: string, p: Place, k: nat)
    requires k < |p.name| && LowerChar(p.name[k]) !in text
    ensures !Occurs(text, p)
  {
    if Occurs(text, p) {
      LowerAt(p.name, k);
      ContainsChar(text, Lower(p.name), k);
    }
  }

  /** A character that "maluku utara" does not hold, by comparison with each of its letters. */
  predicate OutsideMalukuUtara(c: char) {
    c != 'm' && c != 'a' && c != 'l' && c != 'u' && c != 'k' && c != ' ' && c != 't' && c != 'r'
  }

  lemma OutsideMalukuUtaraAbsent(c: char)
    requires OutsideMalukuUtara(c)
    ensures c !in "maluku utara"
  {
  }

  /** Places each holding, at its index in `ks`, a letter outside "maluku utara" do not occur in it. */
  lemma NoneOccurInMalukuUtara(text: string, ps: seq<Place>, ks: seq<nat>)
    requires text == "maluku utara" && |ks| == |ps|
    requires forall j :: 0 <= j < |ps| ==> ks[j] < |ps[j].name| && OutsideMalukuUtara(LowerChar(ps[j].name[ks[j]]))
    ensures forall j :: 0 <= j < |ps| ==> !Occurs(text, ps[j])
  {
    forall j | 0 <= j < |ps| ensures !Occurs(text, ps[j]) {
      OutsideMalukuUtaraAbsent(LowerChar(ps[j].name[ks[j]]));
      AbsentCharExcludes(text, ps[j], ks[j]);
    }
  }

  /** No tourism place occurs in "maluku utara": each name holds a letter the text lacks. */
  lemma NoTourismInMalukuUtara()
    ensures forall j :: 0 <= j < |TourismPlaces()| ==> !Occurs("maluku utara", TourismPlaces()[j])
  {
    NoneOccurInMalukuUtara("maluku utara", TourismPlaces(), [0, 0, 0, 0, 0, 4, 1, 0, 4, 0, 0, 0, 0, 0, 2, 1, 2, 0, 2]);
  }

  /** No tourism place occurs in "aceh": "Bali" has a "b", every other name is longer than four letters. */
  lemma NoTourismInAceh()
    ensures forall j :: 0 <= j < |TourismPlaces()| ==> !Occurs("aceh", TourismPlaces()[j])
  {
    var ps := TourismPlaces();
    AbsentCharExcludes("aceh", ps[0], 0);
    forall j | 1 <= j < |ps|
      ensures !Occurs("aceh", ps[j])
    {
      LongerNameAbsent("aceh", ps[j]);
    }
  }

  /** "Aceh", named by no tourism place, resolves to the province centroid (5.2, 96.0). */
  lemma AcehResolves()
    ensures PlaceFor("aceh", Indonesia()) == Some(Place("Aceh", 5.2, 96.0))
  {
    NoTourismInAceh();
    AcehFound();
  }

  /** "Maluku Utara" resolves to (2.0, 128.0): no tourism place matches and the longer province name wins over "Maluku". */
  lemma MalukuUtaraResolves()
    ensures PlaceFor("maluku utara", Indonesia()) == Some(Place("Maluku Utara", 2.0, 128.0))
  {
    NoTourismInMalukuUtara();
    MalukuUtaraFound();
  }
}
