# Tourism data scraper: the normalisation pipeline

This project models, in Dafny, the core of `TourismDataScraper` (`scraper.py`):
the pipeline that turns a table scraped from a web page or a CSV file into a
dataset with standard Indonesian column names (`nama`, `provinsi`, `kota`,
`kategori`, `rating`, `harga`, `deskripsi`) and map coordinates.

A dataset is a `Tables.Table`: an ordered list of column names and a sequence of
rows, each row holding one `Cell` per column (`Missing`, `Text(s)` or `Num(x)`
with `x` an exact `real`). The modules follow the stages of the pipeline:

- `Strings`, `Tables`: the Python string methods the scraper uses (`strip`,
  `lower`, `title`, `in`, `split(',')[0]`, ...) and the DataFrame operations
  (`df.at`, `df[col] = ...`, boolean masks, `pd.to_numeric`).
- `Extraction`: the strategy cascade of `scrape_from_url` (CSV, `read_html`
  table choice, `_parse_html_table`, `_extract_from_div_lists`) with the parsers
  abstracted to their results.
- `Scraping`: the class `Scraper` and its retry loop, which rotates the user
  agent (`attempt % 4`) and the timeout (30 s, then 60 s).
- `ColumnNames`: the column-name cleaning and the duplicate renaming
  (`X_0, X_1, ...`) of `clean_scraped_data`.
- `ColumnMapper`: `map_columns` and its ordered synonym table.
- `Synthetic`: `create_synthetic_columns` (`kategori`, `rating`, `kota`).
- `Gazetteer`, `Coordinates`: the two static gazetteers, the longest-first
  ordering of the provinces, `extract_coordinates`, `validate_coordinates` and
  `validate_data`.
- `Cleaner`: `clean_scraped_data` end to end.
- `Report`: `get_data_accuracy_report`.

Every imperative step of the source (the row loop of `extract_coordinates`, the
`iterrows` loop of `create_synthetic_columns`, the nested loops of `map_columns`,
the renaming and cleaning loops of `clean_scraped_data`, the report loops, the
retry loop) is a `method` with loop invariants, proved equal to a specification
function; the properties are lemmas about those functions.

Behaviour of the source worth noting:

- In `map_columns` a later standard name that matches the same source column
  overwrites the earlier entry of `mapped_cols`, so the LAST matching standard
  name wins (`ColumnMapper.MappingLastClaimWins`).
- A derived `kota` is `'Unknown'` only for a missing `provinsi`; an empty or
  blank `provinsi` text gives the empty string (`Synthetic.CityOf`).
- `province_coords` has 35 entries, although the comment above it speaks of
  34 provinces: "DI Yogyakarta" is a second spelling of "Daerah Istimewa Yogyakarta" (`Gazetteer.ProvincesInGazetteer`).
- The cascade stops at the first strategy that returns a table, even an empty
  one (`Extraction.EmptyCsvStopsCascade`); the attempt then fails the
  `len(df) > 0` test and the loop retries.
- The duplicate renaming can itself produce equal names (`a, a, a_0` becomes
  `a_0, a_1, a_0`, `ColumnNames.DedupNamesCollision`); column names are
  distinct afterwards only when no name already has the shape `X_<n>`.
- A `read_html` table with no header row gets numbered column labels, and one
  with a header of several rows gets multi-level labels. When strategy 1
  picks such a table, `df.columns.str.strip()` in `clean_scraped_data`
  raises, so the attempt fails: strategies 2 and 3 are not tried on it, and
  every retry of the same page fails the same way
  (`Scraping.UnlabelledTableFails`, `Scraping.UnlabelledTablesGiveNone`).
- A row whose location columns name no place keeps the coordinates it had,
  out-of-range or half-missing ones included (`Coordinates.ResolveKeepsRow`).
- A repeated column name is skipped by the cell-cleaning loop, because
  `df[col]` is then a frame and reading its `dtype` raises inside the loop's
  `try` (`Cleaner.NormalizeCells`).

## Model

| member | source | states |
|---|---|---|
| `ColumnNames.CleanNameShape` | scraper.py:218-219 | a cleaned column name holds no tab or line break and has no leading or trailing white space |
| `ColumnNames.RenameOccurrences` | scraper.py:225-227 | the occurrences of one repeated name are renamed `dup_0, dup_1, ...` in position order; every other position keeps its name |
| `ColumnNames.RenameDuplicates` | scraper.py:221-228 | the renaming loop gives, at each position, the name suffixed with its number of earlier occurrences when the name is repeated, and the name itself otherwise |
| `ColumnNames.DuplicatedIff` | scraper.py:223-224 | the names visited by the loop (`cols[cols.duplicated()].unique()`) are exactly the names occurring more than once |
| `ColumnNames.DedupNamesDistinct` | scraper.py:221-228 | when no name already looks like a suffixed name, the names are pairwise distinct after renaming |
| `ColumnNames.DedupNamesCollision` | scraper.py:221-228 | `a, a, a_0` is renamed to `a_0, a_1, a_0`: the renaming alone does not make names unique |
| `ColumnMapper.StandardNamesDistinct` | scraper.py:291-324 | the synonym table holds the seven standard names, in order, each once |
| `ColumnMapper.SynonymOccursIff` | scraper.py:332 | the partial-match test holds iff some synonym longer than two characters occurs inside the key |
| `ColumnMapper.FirstMatch` | scraper.py:329-335 | the found column is the first one, in column order, that matches; none is found only when no column matches |
| `ColumnMapper.FillMapping` | scraper.py:326-335 | for any synonym table, the nested loops with `break` build exactly the map `Mapping` of the standard names' claims |
| `ColumnMapper.MapColumns` | scraper.py:289-342 | the nested loops build exactly the rename map `ColumnMapping` and rename every column in it |
| `ColumnMapper.ClaimsAreNewNames` | scraper.py:333-334 | a standard name claims a column only when it is not already a column name, and the claimed column is a source column |
| `ColumnMapper.MappingShape` | scraper.py:326-335 | every key of the rename map was claimed by some standard name, whose name is its value |
| `ColumnMapper.MappingDomain` | scraper.py:326-335 | a column is renamed iff some standard name claims it |
| `ColumnMapper.MappingLastClaimWins` | scraper.py:328-335 | a column is renamed to the k-th standard name iff that name claims it and no later standard name does |
| `ColumnMapper.MappingTargetsAbsent` | scraper.py:326-339 | a renamed column is a source column and its new name is a standard name not already among the columns |
| `ColumnMapper.MappingInjective` | scraper.py:326-339 | no two source columns are renamed to the same standard name |
| `ColumnMapper.RenamedDistinct` | scraper.py:337-339 | renaming keeps distinct column names distinct |
| `ColumnMapper.AllStandardPresentRenamesNothing` | scraper.py:328-339 | when all seven standard names are columns the rename map is empty and the columns are unchanged |
| `Synthetic.CategoryFrom` | scraper.py:367-370 | the category found is the first, in table order, with a keyword inside the text; none only when no category has one |
| `Synthetic.GuessCategory` | scraper.py:364-370 | one row's category is the title-cased first matching category of the lower-cased name, else `Attraction` |
| `Synthetic.GuessCategories` | scraper.py:360-371 | the `iterrows` loop yields one guessed category per row, in row order |
| `Synthetic.CityOf` | scraper.py:383 | a derived city is always text |
| `Synthetic.CreateSyntheticColumns` | scraper.py:344-386 | the method builds the table `Synthesize` describes, adding each column only when absent |
| `Synthetic.SynthesizeKeepsExisting` | scraper.py:349-384 | existing columns keep their names, positions and cells; new columns are only appended |
| `Synthetic.SynthesizeAddsColumns` | scraper.py:349-384 | afterwards `kategori` and `rating` are columns, and `kota` is one whenever `provinsi` is |
| `Synthetic.SynthesizeKeepsCells` | scraper.py:349-384 | every cell of an existing column, `kategori`, `rating` and `kota` included, is unchanged |
| `Synthetic.DerivedCategory` | scraper.py:349-373 | a derived `kategori` cell holds the category guessed from that row's `nama` |
| `Synthetic.DerivedRating` | scraper.py:377-378 | a created `rating` column is missing in every row |
| `Synthetic.DerivedCity` | scraper.py:382-383 | a derived `kota` cell holds the city read from that row's `provinsi` |
| `Synthetic.CityShape` | scraper.py:383 | a derived city never holds a comma, and is `Unknown` for a missing province |
| `Synthetic.PantaiIsBeach` | scraper.py:350-370 | a name holding `pantai` is a `Beach`, whatever other keywords it holds |
| `Gazetteer.ProvincesInGazetteer` | scraper.py:18-28 | every name of `PROVINCES` has a `province_coords` entry; the gazetteer has one more entry |
| `Gazetteer.TourismInRange` | scraper.py:436-456 | every tourism coordinate lies in [-90, 90] x [-180, 180] |
| `Gazetteer.ProvincesInRange` | scraper.py:397-433 | every province coordinate lies in [-90, 90] x [-180, 180] |
| `Gazetteer.FirstPlaceIn` | scraper.py:497-503 | the place found is the first in list order whose lower-cased name occurs in the text (no earlier place occurs); none only when no place occurs |
| `Gazetteer.InsertByLength` | scraper.py:508 | insertion keeps every place, adding exactly the inserted one |
| `Gazetteer.LongestFirst` | scraper.py:508 | the sorted provinces are a permutation of the gazetteer in non-increasing name length |
| `Gazetteer.LongestFirstMember` | scraper.py:508 | every place of the sorted list is a gazetteer place |
| `Gazetteer.BestPlaceIn` | scraper.py:505-515 | reference search: an occurring place with the longest name, the earliest among equally long ones |
| `Gazetteer.FirstPlaceInInsert` | scraper.py:508-515 | searching after inserting a place finds it iff it occurs and is at least as long as what the rest gives |
| `Gazetteer.LongestFirstFindsBest` | scraper.py:506-515 | searching the stably sorted list finds exactly the reference place (longest name, earliest on ties) |
| `Gazetteer.LongerNameWins` | scraper.py:506-515 | the province search never settles for a name shorter than one that occurs |
| `Gazetteer.WholeTextWins` | scraper.py:506-515 | a province whose lower-cased name is the whole text, and the first of its name length, is what the search finds |
| `Gazetteer.LongerNameAbsent` | scraper.py:498 | a name longer than the text never occurs in it |
| `Gazetteer.AcehFound` | scraper.py:398 | the province search on `aceh` finds Aceh (5.2, 96.0), although Riau and Bali have names of the same length |
| `Gazetteer.MalukuUtaraFound` | scraper.py:429-430 | the province search on `maluku utara` finds Maluku Utara (2.0, 128.0), not Maluku |
| `Coordinates.LocationColumns` | scraper.py:463-464 | the location columns are exactly the columns whose lower-cased name is one of the eight location names, in column order |
| `Coordinates.PlaceFor` | scraper.py:496-515 | a text names the first tourism place that occurs in it; only when none does, the province the longest-first search finds (`BestPlaceIn`: the longest occurring name, earliest on ties); none iff no name of either gazetteer occurs |
| `Coordinates.PlaceFrom` | scraper.py:485-518 | a row's place comes from the first location column, in order, whose usable text names a place (no earlier column does); none iff no location column names one |
| `Coordinates.WithCoordinateColumns` | scraper.py:458-460 | when either coordinate column is absent both are set all-missing and every other cell is kept; otherwise the table is unchanged |
| `Coordinates.FindPlace` | scraper.py:497-503 | the loop over a gazetteer returns the first place whose name occurs in the text |
| `Coordinates.ResolveRow` | scraper.py:483-518 | the location-column loop writes the coordinates of the first place found, or keeps the row |
| `Coordinates.ResolveRows` | scraper.py:472-518 | the row loop resolves exactly the rows without valid coordinates |
| `Coordinates.ExtractCoordinates` | scraper.py:388-521 | `extract_coordinates` gives none for an empty table, else the resolved table |
| `Coordinates.ValidateCoordinates` | scraper.py:652-665 | a row is valid iff both coordinates are numbers in range; all rows are invalid without both columns |
| `Coordinates.ValidateData` | scraper.py:523-540 | the data are valid iff some row has valid coordinates |
| `Coordinates.ValidatedRowIsSkipped` | scraper.py:474-479 | a row that `validate_coordinates` accepts is one the resolver skips |
| `Coordinates.PlaceForInRange` | scraper.py:496-515 | with in-range gazetteers a found place is in range |
| `Coordinates.ResolveKeepsRow` | scraper.py:472-518 | a row with valid coordinates, or naming no place, is kept unchanged, out-of-range values included |
| `Coordinates.ResolveWritesRow` | scraper.py:496-515 | any other row gets the found place's latitude and longitude and keeps every other cell |
| `Coordinates.ResolveValidIff` | scraper.py:472-518 | after resolution a row has valid coordinates iff it had them or its location columns name a place |
| `Coordinates.ResolveWritesValidated` | scraper.py:496-515 | every written coordinate pair passes `validate_coordinates`, so `validate_data` holds |
| `Coordinates.ResolveInIdempotent` | scraper.py:472-518 | running the row loop twice gives the same table as once |
| `Coordinates.ResolveIdempotent` | scraper.py:458-518 | `extract_coordinates` is idempotent |
| `Coordinates.BaliResolves` | scraper.py:437 | the text `bali` resolves to the tourism entry (-8.6705, 115.2126), not the province |
| `Coordinates.NoTourismInAceh` | scraper.py:436-456 | no tourism place occurs in `aceh` |
| `Coordinates.AcehResolves` | scraper.py:496-515 | the text `aceh` resolves to the province centroid (5.2, 96.0) |
| `Coordinates.NoTourismInMalukuUtara` | scraper.py:436-456 | no tourism place occurs in `maluku utara` |
| `Coordinates.MalukuUtaraResolves` | scraper.py:496-515 | the text `maluku utara` resolves to (2.0, 128.0) |
| `Cleaner.KeptColumns` | scraper.py:210-211 | the kept columns are exactly, in order, those holding a non-missing cell and a cell with non-empty text |
| `Cleaner.KeptRows` | scraper.py:214-215 | the kept rows are exactly, in order, those holding a non-missing cell and a cell with non-empty text |
| `Cleaner.DropsLeaveNoEmptyRow` | scraper.py:209-215 | every row left after the drops has a non-missing cell and a cell with non-empty text |
| `Cleaner.CleanCell` | scraper.py:234-236 | a cleaned cell is missing exactly when the stripped text is one of the null tokens, and otherwise is that stripped text |
| `Cleaner.CleanCellIdempotent` | scraper.py:234-236 | cleaning a cleaned cell changes nothing |
| `Cleaner.CleanCells` | scraper.py:230-238 | the cleaning loop rewrites every cell of the flagged columns and no other cell |
| `Cleaner.NormalizeCells` | scraper.py:209-241 | after the cleaning loop a text column whose renamed name is unique holds the cleaned cells; a column whose name is repeated, or that holds no text, keeps its cells |
| `Cleaner.RatingCell` | scraper.py:257-259 | a bounded rating is missing exactly when it is not numeric or lies outside [0, 5], and otherwise is the number itself |
| `Cleaner.PriceCell` | scraper.py:267-269 | a bounded price is missing exactly when it is not numeric or negative, and otherwise is the number itself |
| `Cleaner.FirstRows` | scraper.py:277 | the kept rows are exactly, in order, those with no earlier row sharing their (`nama`, `provinsi`) pair |
| `Cleaner.DedupKeysDistinct` | scraper.py:275-277 | after de-duplication no two rows share a (`nama`, `provinsi`) pair |
| `Cleaner.FirstWithKey` | scraper.py:277 | every row has a first row with the same pair at or before it |
| `Cleaner.DedupKeepsFirst` | scraper.py:275-277 | every pair of the input survives, carried by the first row that has it |
| `Cleaner.DedupKeepsSomeRow` | scraper.py:275-277 | de-duplication keeps a non-empty table non-empty |
| `Cleaner.NormalizeTable` | scraper.py:209-241 | drops, name cleaning, renaming and cell cleaning run in the source's order |
| `Cleaner.FinishTable` | scraper.py:254-279 | rating bound, price bound and de-duplication run in the source's order |
| `Cleaner.Prepare` | scraper.py:243-252 | mapper, synthetic columns and coordinate resolver run in the source's order |
| `Cleaner.Clean` | scraper.py:201-287 | `clean_scraped_data`, with the two fixed gazetteers, returns none for an empty input, else the cleaned table unless it is empty |
| `Cleaner.FinishRatingBounded` | scraper.py:255-279 | after the last steps every `rating` is missing or in [0, 5] |
| `Cleaner.FinishPriceBounded` | scraper.py:264-279 | after the last steps every `harga` is missing or >= 0 |
| `Cleaner.FinishKeysDistinct` | scraper.py:274-279 | after the last steps no two rows share a (`nama`, `provinsi`) pair |
| `Cleaner.CleanNoneIff` | scraper.py:203-205 | cleaning gives none exactly for an empty input |
| `Cleaner.CleanRatingBounded` | scraper.py:255-262 | a cleaned table has a `rating` column whose every value is missing or in [0, 5] |
| `Cleaner.CleanPriceBounded` | scraper.py:264-272 | in a cleaned table every `harga` is missing or >= 0 |
| `Cleaner.CleanKeysDistinct` | scraper.py:274-279 | in a cleaned table no two rows share a (`nama`, `provinsi`) pair |
| `Report.FilledInAllIff` | scraper.py:623 | a column is fully filled iff its filled count is the row count |
| `Report.FilledInNoneIff` | scraper.py:623 | a column is entirely missing iff its filled count is zero |
| `Report.PercentOf` | scraper.py:622-624 | `non_null / total * 100` lies in [0, 100], is 100 exactly when every row is filled and 0 exactly when none is |
| `Report.Stats` | scraper.py:621-630 | filled + missing = total rows, completeness in [0, 100], 100 iff fully filled, 0 iff entirely missing |
| `Report.CompletenessByColumn` | scraper.py:620-630 | the loop gives every column, and only the columns, its completeness entry |
| `Report.WeightedScores` | scraper.py:642-646 | the loop gives weight times completeness for each weighted column present, in weight order |
| `Report.GetDataAccuracyReport` | scraper.py:609-650 | the report is none (`{}`) for an empty table, else the computed report |
| `Report.ReportCounts` | scraper.py:614-630 | the report has one entry per column and each entry's counts add up to the row count |
| `Report.QualityScoresBounded` | scraper.py:642-648 | the weighted sum lies between 0 and 100 times the total weight |
| `Report.WeightsTotalOne` | scraper.py:633-640 | the six weights add up to 1 |
| `Report.ScoreBounded` | scraper.py:642-648 | the quality score lies in [0, 100] |
| `Report.QualityScoresAbsent` | scraper.py:643-646 | with no weighted column present the list of weighted terms is empty |
| `Report.QualityScoresSkipAbsent` | scraper.py:643-646 | a weighted column that is not present adds no term: removing it from the weights gives the same terms |
| `Report.ScoreWithoutWeightedColumns` | scraper.py:642-648 | without any weighted column the score is 0 |
| `Report.ScoreWhenComplete` | scraper.py:642-648 | with all six weighted columns present and filled the score is 100 |
| `Extraction.LongestUsable` | scraper.py:85-87 | the chosen position is usable, no usable table is longer, every earlier usable one is shorter; none only when none is usable |
| `Extraction.ChooseTable` | scraper.py:84-88 | the chosen table is one of the tables read |
| `Extraction.ChooseTableIsLongest` | scraper.py:85-87 | the chosen table has >= 3 rows and >= 2 columns and no such table has more rows; none iff no table qualifies |
| `Extraction.NonEmptyRows` | scraper.py:157-162 | the rows kept are the non-empty body rows, in order, each occurrence of a repeated row included |
| `Extraction.ParseHtmlTableSpec` | scraper.py:136-171 | a table is produced exactly when there is a table with headers and a non-empty body row whose longest row has one cell per header; its columns are the headers and its rows the non-empty body rows, short ones padded with missing cells |
| `Extraction.CollectRows` | scraper.py:157-162 | the row loop keeps exactly the non-empty rows, in order |
| `Extraction.ParseHtmlTable` | scraper.py:136-171 | `_parse_html_table` returns what `ParseHtmlTableSpec` describes |
| `Extraction.RowOf` | scraper.py:184-187 | a tag is a key of the row dict iff some element of that tag has non-empty text |
| `Extraction.RowOfLastText` | scraper.py:184-187 | the entry of a tag is the text of the last element of that tag with non-empty text |
| `Extraction.ItemRow` | scraper.py:183-187 | the element loop builds the row dict `RowOf` describes |
| `Extraction.ItemRows` | scraper.py:182-190 | only non-empty row dicts are collected |
| `Extraction.AddNew` | scraper.py:193 | after the existing keys come, in order, exactly the names not seen before (neither among the existing keys nor earlier in the list) |
| `Extraction.FrameColumns` | scraper.py:193 | the frame's columns are the keys of all rows, each once |
| `Extraction.DivTableFrom` | scraper.py:179-196 | the table is the frame of the rows of the first selector whose items give a row; none iff no selector gives one |
| `Extraction.CollectItemRows` | scraper.py:182-190 | the item loop appends the non-empty row dicts in order |
| `Extraction.ExtractFromDivLists` | scraper.py:173-199 | given the items of each of the six selectors, the frame of the first selector whose items give a row, else none |
| `Extraction.FirstSome` | scraper.py:66-113 | the first result that is not none; none iff all are none |
| `Extraction.CascadeIsFirstResult` | scraper.py:66-113 | the cascade returns the first strategy result, in strategy order, that is not none |
| `Extraction.EmptyCsvStopsCascade` | scraper.py:70-77 | an empty CSV table still stops the cascade |
| `Scraping.RequestOf` | scraper.py:56-59 | each attempt uses one of the four user agents |
| `Scraping.RequestRotation` | scraper.py:56-59 | attempt k uses agent k mod 4 and only the first attempt has the 30-second timeout |
| `Scraping.FirstSuccess` | scraper.py:54-131 | the first attempt from k on that yields a non-empty, cleanable table |
| `Scraping.ScrapedTable` | scraper.py:54-134 | a table found is well-formed, non-empty and accepted by cleaning |
| `Extraction.ReadHtmlFrame` | scraper.py:80-93 | when `read_html` finds a usable table and no CSV frame precedes it, the cascade's frame is the table strategy 1 chose |
| `Scraping.TryResponse` | scraper.py:66-120 | one attempt yields the cascade's table iff its request succeeded and the table is non-empty and cleanable, with text column labels |
| `Scraping.UnlabelledTableFails` | scraper.py:83-93 | an attempt whose cascade frame is a `read_html` table with numbered or multi-level column labels does not end the loop (cleaning raises at scraper.py:218) |
| `Scraping.UnlabelledTablesGiveNone` | scraper.py:54-134 | when every response is of that kind, all `n` requests are sent and no table is returned |
| `Scraping.Scraper.constructor` | scraper.py:30-45 | the scraper starts with the four user agents and the first one selected |
| `Scraping.Scraper.SetAgent` | scraper.py:56-59 | attempt k selects agent k mod 4, with a 30 s timeout first and 60 s after |
| `Scraping.Scraper.Attempt` | scraper.py:54-134 | the retry loop sends the requests of attempts 0.. up to the first success and returns that attempt's table |
| `Scraping.Scraper.ScrapeFromUrl` | scraper.py:47-134 | `scrape_from_url` returns the table of the first successful attempt cleaned with the two fixed gazetteers, or none |
| `Scraping.NoSuccess` | scraper.py:133-134 | when no attempt succeeds all requests are sent and no table is found |
| `Scraping.AllFailedGivesNone` | scraper.py:123-134 | when every request fails the result is none after all attempts |
| `Scraping.FirstAttemptSucceeds` | scraper.py:115-118 | a successful first attempt ends the loop after one request |
| `Scraping.LaterOutcomesIgnored` | scraper.py:115-118 | outcomes after the first success do not change the result |

## Left out

- Network retrieval (`requests.get`, `raise_for_status`, encoding detection),
  `time.sleep` and the dispatch on exception types: each attempt's outcome is a
  given `Outcome`, a failed request or the response the strategies read.
- The internals of pandas and BeautifulSoup: `read_csv`, `read_html`,
  `soup.find` / `select` and `get_text(strip=True)` are given as their results
  (`Extraction.Response`, `HtmlTable`, `Element`). A `read_html` table's
  column labels are reduced to whether they are text
  (`Extraction.Response.htmlTextLabels`); the model's `Table` names its
  columns with strings either way.
- `pd.to_numeric` of a string is a given partial function `parse`; Python's
  `str` of a float is a given function `render`.
- `round(..., 2)` in the accuracy report is not modelled: completeness and score
  are exact.
- `get_statistics` (float mean, min, max, median), `save_to_csv` and all
  `print` logging.
- `app.py` (the Streamlit pages, charts and map) is not part of this model.
- The crash path where every row is dropped as empty, `extract_coordinates`
  returns `None` and `'rating' in df.columns` raises: `Cleaner.Clean` requires
  `CleanDefined` instead; in the retry loop such a table counts as a failed
  attempt, as the caught exception does in the source.
- Lower- and title-casing and white space follow ASCII (and Python's
  `isspace` for white space); Unicode case mapping is not modelled.
- Integer and float cells are both exact `real`s; NaN read from a CSV is a
  missing cell.
- `Coordinates.ValidateCoordinates`: a text cell in a coordinate column counts
  as invalid, where pandas would raise comparing a string with a number.
- With repeated column names pandas returns a frame for `df[name]`; the model
  reads the first column of that name (`Tables.At`).
- A column's `object` dtype is modelled as "holds some text cell"
  (`Cleaner.TextColumns`).
- `Scraping.Scraper.SetAgent`: only the `User-Agent` entry of `self.headers`
  is kept as state, since the other five entries never change.
