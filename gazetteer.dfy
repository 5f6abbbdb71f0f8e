/**
 * The two static gazetteers of the coordinate resolver and the province
 * list of the scraper, together with the case-insensitive name search and
 * the longest-name-first ordering of the provinces.
 */
module Gazetteer {
  import opened Strings
  import opened Tables

  /** A named point: a gazetteer entry's name with its latitude and longitude. */
  datatype Place = Place(name: string, lat: real, lon: real)

  /** `TourismDataScraper.PROVINCES` */
  function Provinces(): seq<string> {
    [
      "Aceh", "Sumatera Utara", "Sumatera Barat", "Riau", "Jambi",
      "Sumatera Selatan", "Bengkulu", "Lampung", "Kepulauan Bangka Belitung",
      "Kepulauan Riau", "DKI Jakarta", "Jawa Barat", "Jawa Tengah",
      "Daerah Istimewa Yogyakarta", "Jawa Timur", "Banten", "Bali",
      "Nusa Tenggara Barat", "Nusa Tenggara Timur", "Kalimantan Barat",
      "Kalimantan Tengah", "Kalimantan Selatan", "Kalimantan Timur",
      "Kalimantan Utara", "Sulawesi Utara", "Sulawesi Tengah",
      "Sulawesi Selatan", "Sulawesi Tenggara", "Gorontalo",
      "Sulawesi Barat", "Maluku", "Maluku Utara", "Papua", "Papua Barat"
    ]
  }

  /** `province_coords`, in insertion order. */
  function ProvincePlaces(): seq<Place> {
    [
      Place("Aceh", 5.2, 96.0),
      Place("Sumatera Utara", 2.5, 99.0),
      Place("Sumatera Barat", -0.5, 100.5),
      Place("Riau", 0.25, 101.5),
      Place("Jambi", -1.5, 102.7),
      Place("Sumatera Selatan", -3.2, 104.7),
      Place("Bengkulu", -3.8, 102.1),
      Place("Lampung", -4.5, 105.3),
      Place("Kepulauan Bangka Belitung", -2.7, 107.6),
      Place("Kepulauan Riau", 0.8, 101.7),
      Place("DKI Jakarta", -6.2, 106.8),
      Place("Jawa Barat", -6.9, 107.5),
      Place("Jawa Tengah", -7.5, 110.4),
      Place("DI Yogyakarta", -7.8, 110.4),
      Place("Daerah Istimewa Yogyakarta", -7.8, 110.4),
      Place("Jawa Timur", -7.3, 112.8),
      Place("Banten", -6.3, 106.2),
      Place("Bali", -8.7, 115.2),
      Place("Nusa Tenggara Barat", -8.5, 117.3),
      Place("Nusa Tenggara Timur", -8.7, 121.0),
      Place("Kalimantan Barat", 0.0, 111.5),
      Place("Kalimantan Tengah", -1.7, 113.3),
      Place("Kalimantan Selatan", -3.5, 114.7),
      Place("Kalimantan Timur", 0.5, 116.5),
      Place("Kalimantan Utara", 4.0, 117.6),
      Place("Sulawesi Utara", 1.5, 124.7),
      Place("Sulawesi Tengah", -1.5, 120.8),
      Place("Sulawesi Selatan", -5.5, 120.0),
      Place("Sulawesi Tenggara", -4.3, 122.5),
      Place("Gorontalo", 0.7, 122.5),
      Place("Sulawesi Barat", -2.1, 119.3),
      Place("Maluku", -3.2, 129.2),
      Place("Maluku Utara", 2.0, 128.0),
      Place("Papua", -4.5, 138.2),
      Place("Papua Barat", -1.9, 131.3)
    ]
  }

  /** `tourism_coords`, in insertion order. */
  function TourismPlaces(): seq<Place> {
    [
      Place("Bali", -8.6705, 115.2126),
      Place("Yogyakarta", -7.7956, 110.3688),
      Place("Bandung", -6.9147, 107.6098),
      Place("Jakarta", -6.2088, 106.8456),
      Place("Surabaya", -7.2575, 112.7521),
      Place("Malang", -7.9827, 112.6345),
      Place("Medan", 3.5952, 98.6722),
      Place("Pekanbaru", 0.5271, 101.4489),
      Place("Makassar", -5.1477, 119.4327),
      Place("Semarang", -6.9702, 110.4203),
      Place("Palembang", -2.9081, 104.7549),
      Place("Banjarmasin", -3.3243, 114.5971),
      Place("Pontianak", -0.0263, 109.3425),
      Place("Samarinda", -0.4917, 117.1431),
      Place("Manado", 1.4748, 124.8244),
      Place("Kendari", -3.9701, 122.5137),
      Place("Ambon", -3.6959, 128.1814),
      Place("Jayapura", -2.5243, 140.6869),
      Place("Kupang", -10.1698, 123.6231)
    ]
  }

  /** A latitude in [-90, 90] and a longitude in [-180, 180]. */
  predicate InRange(lat: real, lon: real) {
    -90.0 <= lat <= 90.0 && -180.0 <= lon <= 180.0
  }

  lemma ProvincesHead()
    ensures forall i :: 0 <= i < 13 ==> Provinces()[i] == ProvincePlaces()[i].name
  {
  }

  lemma ProvincesTail()
    ensures forall i :: 13 <= i < 34 ==> Provinces()[i] == ProvincePlaces()[i + 1].name
  {
  }

  /** Every province of the list has a gazetteer entry; the gazetteer adds "DI Yogyakarta" as a second spelling. */
  lemma ProvincesInGazetteer()
    ensures |ProvincePlaces()| == |Provinces()| + 1
    ensures forall i :: 0 <= i < |Provinces()| ==> Provinces()[i] == ProvincePlaces()[if i < 13 then i else i + 1].name
    ensures ProvincePlaces()[13] == Place("DI Yogyakarta", ProvincePlaces()[14].lat, ProvincePlaces()[14].lon)
  {
    ProvincesHead();
    ProvincesTail();
  }

  /** Every tourism coordinate is a valid position. */
  lemma TourismInRange()
    ensures forall j :: 0 <= j < |TourismPlaces()| ==> InRange(TourismPlaces()[j].lat, TourismPlaces()[j].lon)
  {
  }

  /** Every province coordinate is a valid position. */
  lemma ProvincesInRange()
    ensures forall j :: 0 <= j < |ProvincePlaces()| ==> InRange(ProvincePlaces()[j].lat, ProvincePlaces()[j].lon)
  {
  }

  /** `place.lower() in location_lower` */
  predicate Occurs(text: string, p: Place) {
    Contains(text, Lower(p.name))
  }

  /** The first place, in list order, whose lower-cased name occurs in `text`. */
  function FirstPlaceIn(text: string, ps: seq<Place>): (r: Option<Place>)
    ensures r.Some? ==> r.value in ps && Occurs(text, r.value)
    ensures r.None? <==> forall j :: 0 <= j < |ps| ==> !Occurs(text, ps[j])
    ensures r.Some? ==> exists k :: 0 <= k < |ps| && ps[k] == r.value && forall j :: 0 <= j < k ==> !Occurs(text, ps[j])
  {
    if ps == [] then None
    else if Occurs(text, ps[0]) then Some(ps[0])
    else
      var r := FirstPlaceIn(text, ps[1..]);
      assert r.Some? ==> exists k :: 0 <= k < |ps| && ps[k] == r.value && forall j :: 0 <= j < k ==> !Occurs(text, ps[j]) by {
        if r.Some? {
          var k :| 0 <= k < |ps[1..]| && ps[1..][k] == r.value && forall j :: 0 <= j < k ==> !Occurs(text, ps[1..][j]);
          assert ps[k + 1] == r.value;
          assert forall j :: 1 <= j < k + 1 ==> ps[j] == ps[1..][j - 1];
        }
      }
      r
  }

  /** The places are ordered by non-increasing name length. */
  predicate LongestFirstOrdered(ps: seq<Place>) {
    forall i, j :: 0 <= i < j < |ps| ==> |ps[i].name| >= |ps[j].name|
  }

  /** Inserts `p` before the first place whose name is not longer than its own. */
  function InsertByLength(p: Place, ps: seq<Place>): (r: seq<Place>)
    ensures multiset(r) == multiset(ps) + multiset{p}
  {
    if ps == [] || |ps[0].name| <= |p.name| then [p] + ps
    else
      assert ps == [ps[0]] + ps[1..];
      [ps[0]] + InsertByLength(p, ps[1..])
  }

  lemma {:induction false} InsertByLengthOrdered(p: Place, ps: seq<Place>)
    requires LongestFirstOrdered(ps)
    ensures LongestFirstOrdered(InsertByLength(p, ps))
  {
    if ps != [] && |ps[0].name| > |p.name| {
      var rest := InsertByLength(p, ps[1..]);
      InsertByLengthOrdered(p, ps[1..]);
      forall q | q in rest
        ensures |q.name| <= |ps[0].name|
      {
        assert q in multiset(rest);
        assert q == p || q in multiset(ps[1..]);
      }
    }
  }

  /**
   * `sorted(places, key=lambda x: len(x[0]), reverse=True)`: an insertion
   * sort that keeps places of equal name length in their list order.
   */
  function LongestFirst(ps: seq<Place>): (r: seq<Place>)
    ensures multiset(r) == multiset(ps)
    ensures LongestFirstOrdered(r)
  {
    if ps == [] then []
    else
      assert ps == [ps[0]] + ps[1..];
      InsertByLengthOrdered(ps[0], LongestFirst(ps[1..]));
      InsertByLength(ps[0], LongestFirst(ps[1..]))
  }

  /** The longest-first order holds the same places. */
  lemma LongestFirstMember(ps: seq<Place>, q: Place)
    requires q in LongestFirst(ps)
    ensures q in ps
  {
    assert q in multiset(LongestFirst(ps));
  }

  /**
   * The reference definition of the province search: among the places
   * whose name occurs, one with the longest name, the earliest in list
   * order among those.
   */
  function BestPlaceIn(text: string, ps: seq<Place>): (r: Option<Place>)
    ensures r.None? <==> forall j :: 0 <= j < |ps| ==> !Occurs(text, ps[j])
    ensures r.Some? ==> Occurs(text, r.value)
    ensures r.Some? ==> forall j :: 0 <= j < |ps| && Occurs(text, ps[j]) ==> |ps[j].name| <= |r.value.name|
    ensures r.Some? ==> exists k :: (0 <= k < |ps| && ps[k] == r.value
      && forall j :: 0 <= j < k && Occurs(text, ps[j]) ==> |ps[j].name| < |r.value.name|)
  {
    if ps == [] then None
    else
      var rest := BestPlaceIn(text, ps[1..]);
      assert forall j :: 1 <= j < |ps| ==> ps[j] == ps[1..][j - 1];
      if Occurs(text, ps[0]) && (rest.None? || |rest.value.name| <= |ps[0].name|) then
        Some(ps[0])
      else
        assert rest.Some? ==> exists k :: (1 <= k < |ps| && ps[k] == rest.value
          && forall j :: 1 <= j < k && Occurs(text, ps[j]) ==> |ps[j].name| < |rest.value.name|) by {
          if rest.Some? {
            EarliestInTail(text, ps, rest.value);
          }
        }
        rest
  }

  /** An earliest longest place of `ps[1..]` keeps that property at its shifted index in `ps`. */
  lemma EarliestInTail(text: string, ps: seq<Place>, r: Place)
    requires ps != []
    requires exists k :: (0 <= k < |ps[1..]| && ps[1..][k] == r
      && forall j :: 0 <= j < k && Occurs(text, ps[1..][j]) ==> |ps[1..][j].name| < |r.name|)
    ensures exists k :: (1 <= k < |ps| && ps[k] == r
      && forall j :: 1 <= j < k && Occurs(text, ps[j]) ==> |ps[j].name| < |r.name|)
  {
    var k :| 0 <= k < |ps[1..]| && ps[1..][k] == r
      && forall j :: 0 <= j < k && Occurs(text, ps[1..][j]) ==> |ps[1..][j].name| < |r.name|;
    assert ps[k + 1] == r;
  }

  /** Searching a longest-first list after inserting `p` into it. */
  lemma {:induction false} FirstPlaceInInsert(text: string, p: Place, ps: seq<Place>)
    requires LongestFirstOrdered(ps)
    ensures FirstPlaceIn(text, InsertByLength(p, ps)) ==
      var rest := FirstPlaceIn(text, ps);
      if Occurs(text, p) && (rest.None? || |rest.value.name| <= |p.name|) then Some(p) else rest
  {
    if ps == [] || |ps[0].name| <= |p.name| {
      FirstPlaceInAtHead(text, p, ps);
    } else {
      FirstPlaceInInsert(text, p, ps[1..]);
      var r := InsertByLength(p, ps[1..]);
      assert ([ps[0]] + r)[1..] == r;
      if Occurs(text, ps[0]) {
        assert FirstPlaceIn(text, ps) == Some(ps[0]);
      }
    }
  }

  /** Searching a longest-first list with `p` put in front, where no place of the list is longer. */
  lemma FirstPlaceInAtHead(text: string, p: Place, ps: seq<Place>)
    requires LongestFirstOrdered(ps) && (ps == [] || |ps[0].name| <= |p.name|)
    ensures FirstPlaceIn(text, [p] + ps) ==
      var rest := FirstPlaceIn(text, ps);
      if Occurs(text, p) && (rest.None? || |rest.value.name| <= |p.name|) then Some(p) else rest
  {
    var rest := FirstPlaceIn(text, ps);
    assert ([p] + ps)[1..] == ps;
    if rest.Some? && Occurs(text, p) {
      var j :| 0 <= j < |ps| && ps[j] == rest.value;
      assert |rest.value.name| <= |ps[0].name|;
    }
  }

  /** Searching the longest-first order finds the earliest of the longest occurring names. */
  lemma {:induction false} LongestFirstFindsBest(text: string, ps: seq<Place>)
    ensures FirstPlaceIn(text, LongestFirst(ps)) == BestPlaceIn(text, ps)
  {
    if ps != [] {
      LongestFirstFindsBest(text, ps[1..]);
      FirstPlaceInInsert(text, ps[0], LongestFirst(ps[1..]));
    }
  }

  /** Inside a text that holds a place's name, the longest-first search never settles for a shorter name. */
  lemma LongerNameWins(text: string, ps: seq<Place>, k: nat)
    requires k < |ps| && Occurs(text, ps[k])
    ensures var r := FirstPlaceIn(text, LongestFirst(ps));
      r.Some? && |r.value.name| >= |ps[k].name|
  {
    LongestFirstFindsBest(text, ps);
  }

  /**
   * A place whose lower-cased name is the whole text, and the first of that
   * name length in list order, is what the longest-first search finds.
   */
  lemma WholeTextWins(text: string, ps: seq<Place>, k: nat)
    requires k < |ps| && Lower(ps[k].name) == text
    requires forall j :: 0 <= j < k ==> |ps[j].name| != |ps[k].name|
    ensures FirstPlaceIn(text, LongestFirst(ps)) == Some(ps[k])
  {
    LongestFirstFindsBest(text, ps);
    ContainsAt(text, text);
    assert OccursAt(text, text, 0);
    var r := BestPlaceIn(text, ps);
    assert Occurs(text, ps[k]);
    ContainsLength(text, Lower(r.value.name));
    var l :| 0 <= l < |ps| && ps[l] == r.value
      && forall j :: 0 <= j < l && Occurs(text, ps[j]) ==> |ps[j].name| < |r.value.name|;
  }

  /** A place whose name is longer than the text does not occur in it. */
  lemma LongerNameAbsent(text: string, p: Place)
    requires |p.name| > |text|
    ensures !Occurs(text, p)
  {
    if Occurs(text, p) {
      ContainsLength(text, Lower(p.name));
    }
  }

  lemma AcehKey()
    ensures Lower("Aceh") == "aceh"
  {
    LowerByChars("Aceh", "aceh");
  }

  /** "Aceh" finds its own entry (5.2, 96.0): it is the first province, and no longer name fits in four letters. */
  lemma AcehFound()
    ensures FirstPlaceIn("aceh", LongestFirst(ProvincePlaces())) == Some(Place("Aceh", 5.2, 96.0))
  {
    AcehKey();
    WholeTextWins("aceh", ProvincePlaces(), 0);
  }

  lemma MalukuUtaraEntry()
    ensures ProvincePlaces()[32] == Place("Maluku Utara", 2.0, 128.0)
  {
  }

  lemma MalukuUtaraKey()
    ensures Lower("Maluku Utara") == "maluku utara"
  {
    LowerByChars("Maluku Utara", "maluku utara");
  }

  /** No earlier province name has the twelve characters of "Maluku Utara". */
  lemma MalukuUtaraLengthUnique()
    ensures forall j :: 0 <= j < 32 ==> |ProvincePlaces()[j].name| != 12
  {
  }

  /** "Maluku Utara" finds its own entry (2.0, 128.0), not the shorter "Maluku" inside it. */
  lemma MalukuUtaraFound()
    ensures FirstPlaceIn("maluku utara", LongestFirst(ProvincePlaces())) == Some(Place("Maluku Utara", 2.0, 128.0))
  {
    MalukuUtaraEntry();
    MalukuUtaraKey();
    MalukuUtaraLengthUnique();
    WholeTextWins("maluku utara", ProvincePlaces(), 32);
  }
}
