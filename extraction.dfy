/**
 * The table-producing strategies of `scrape_from_url` with the parsers
 * abstracted: `pd.read_csv` and `pd.read_html` are given as their results,
 * an HTML `<table>` as the texts of its header and row cells, and the
 * matches of the six div/list selectors as the (tag, text) pairs of their
 * elements. Texts are the element texts after `get_text(strip=True)`.
 */
module Extraction {
  import opened Strings
  import opened Tables

  // ---------------------------------------------------------------------
  // Strategy 1: the choice among the tables `pd.read_html` found

  /** `len(d) >= 3 and len(d.columns) >= 2` */
  predicate Usable(d: Table) {
    |d.rows| >= 3 && |d.columns| >= 2
  }

  /**
   * `max(valid_dfs, key=len)` over the first `n` tables: the position of the
   * first usable table with the most rows, or none when no table is usable.
   */
  function LongestUsable(dfs: seq<Table>, n: nat): (r: Option<nat>)
    requires n <= |dfs|
    ensures r.None? <==> forall k :: 0 <= k < n ==> !Usable(dfs[k])
    ensures r.Some? ==> r.value < n && Usable(dfs[r.value])
    ensures r.Some? ==> forall k :: 0 <= k < n && Usable(dfs[k]) ==> |dfs[k].rows| <= |dfs[r.value].rows|
    ensures r.Some? ==> forall k :: 0 <= k < r.value && Usable(dfs[k]) ==> |dfs[k].rows| < |dfs[r.value].rows|
  {
    if n == 0 then None
    else
      var best := LongestUsable(dfs, n - 1);
      if Usable(dfs[n - 1]) && (best.None? || |dfs[best.value].rows| < |dfs[n - 1].rows|) then Some(n - 1)
      else best
  }

  /** The table strategy 1 keeps. */
  function ChooseTable(dfs: seq<Table>): (r: Option<Table>)
    ensures r.Some? ==> r.value in dfs
  {
    match LongestUsable(dfs, |dfs|)
    case None => None
    case Some(k) => Some(dfs[k])
  }

  /** The chosen table is usable and no usable table has more rows; none is chosen only when none is usable. */
  lemma ChooseTableIsLongest(dfs: seq<Table>)
    ensures ChooseTable(dfs).None? <==> forall k :: 0 <= k < |dfs| ==> !Usable(dfs[k])
    ensures ChooseTable(dfs).Some? ==>
      (Usable(ChooseTable(dfs).value) && forall d :: d in dfs && Usable(d) ==> |d.rows| <= |ChooseTable(dfs).value.rows|)
  {
    var r := LongestUsable(dfs, |dfs|);
    if r.Some? {
      forall d | d in dfs && Usable(d)
        ensures |d.rows| <= |dfs[r.value].rows|
      {
        var k :| 0 <= k < |dfs| && dfs[k] == d;
      }
    }
  }

  // ---------------------------------------------------------------------
  // Strategy 2: `_parse_html_table`

  /**
   * The first `<table>` of the page: the `th` texts of its `<thead>` when it
   * has one, the `th`/`td` texts of its first `<tr>` when it has one, and the
   * `td`/`th` texts of every `<tr>` under its `<tbody>` (or under the table
   * itself when there is no `<tbody>`).
   */
  datatype HtmlTable = HtmlTable(thead: Option<seq<string>>, firstRow: Option<seq<string>>, rows: seq<seq<string>>)

  /** The header texts: from `<thead>`, else from the first row, else none. */
  function Headers(table: HtmlTable): seq<string> {
    if table.thead.Some? then table.thead.value
    else if table.firstRow.Some? then table.firstRow.value
    else []
  }

  /** `tbody.find_all('tr')[1 if not thead else 0:]`: the first row is the header row when there is no `<thead>`. */
  function BodyRows(table: HtmlTable): seq<seq<string>> {
    if table.thead.Some? || table.rows == [] then table.rows else table.rows[1..]
  }

  predicate NonEmpty(row: seq<string>) {
    row != []
  }

  /** The rows with at least one cell, in order, repeated rows included (`if row: rows.append(row)`). */
  function NonEmptyRows(rows: seq<seq<string>>): (r: seq<seq<string>>)
    ensures forall row :: row in r <==> row in rows && row != []
    ensures exists idx: seq<nat> :: PicksAt(r, rows, idx) && forall j :: 0 <= j < |rows| ==> (j in idx <==> rows[j] != [])
  {
    Filter(rows, NonEmpty)
  }

  /** The longest row length. */
  function Width(rows: seq<seq<string>>): (w: nat)
    ensures forall i :: 0 <= i < |rows| ==> |rows[i]| <= w
    ensures rows != [] ==> exists i :: 0 <= i < |rows| && |rows[i]| == w
  {
    if rows == [] then 0
    else
      var w := Width(rows[1..]);
      if |rows[0]| >= w then |rows[0]| else w
  }

  /**
   * `pd.DataFrame(rows, columns=headers)`: short rows are padded with
   * missing cells up to the longest row, and the frame cannot be built
   * (a `ValueError`, caught as none) when the longest row does not have
   * one cell per header.
   */
  function FrameFromLists(rows: seq<seq<string>>, headers: seq<string>): (r: Option<Table>)
    ensures r.Some? <==> Width(rows) == |headers|
    ensures r.Some? ==> WellFormed(r.value) && r.value.columns == headers && |r.value.rows| == |rows|
    ensures r.Some? ==> forall i, j :: 0 <= i < |rows| && 0 <= j < |headers| ==>
      r.value.rows[i][j] == (if j < |rows[i]| then Text(rows[i][j]) else Missing)
  {
    if Width(rows) != |headers| then None
    else
      Some(Table(headers, seq(|rows|, i requires 0 <= i < |rows| =>
        seq(|headers|, j requires 0 <= j < |headers| => if j < |rows[i]| then Text(rows[i][j]) else Missing))))
  }

  /**
   * `_parse_html_table`: a frame exactly when there is a table with headers
   * and a non-empty body row whose longest row has one cell per header; its
   * rows are the non-empty body rows, padded with missing cells.
   */
  function ParseHtmlTableSpec(table: Option<HtmlTable>): (r: Option<Table>)
    ensures r.Some? <==> (table.Some? && Headers(table.value) != [] && NonEmptyRows(BodyRows(table.value)) != []
      && Width(NonEmptyRows(BodyRows(table.value))) == |Headers(table.value)|)
    ensures r.Some? ==>
      (WellFormed(r.value) && r.value.columns == Headers(table.value)
       && |r.value.rows| == |NonEmptyRows(BodyRows(table.value))|)
    ensures r.Some? ==> var rows := NonEmptyRows(BodyRows(table.value));
      forall i, j :: 0 <= i < |rows| && 0 <= j < |r.value.columns| ==>
        r.value.rows[i][j] == (if j < |rows[i]| then Text(rows[i][j]) else Missing)
  {
    if table.None? then None else FrameOf(Headers(table.value), NonEmptyRows(BodyRows(table.value)))
  }

  /** `if rows and headers: pd.DataFrame(rows, columns=headers)`, else none. */
  function FrameOf(headers: seq<string>, rows: seq<seq<string>>): (r: Option<Table>)
    ensures r.Some? <==> headers != [] && rows != [] && Width(rows) == |headers|
    ensures r.Some? ==> WellFormed(r.value) && r.value.columns == headers && |r.value.rows| == |rows|
    ensures r.Some? ==> forall i, j :: 0 <= i < |rows| && 0 <= j < |headers| ==>
      r.value.rows[i][j] == (if j < |rows[i]| then Text(rows[i][j]) else Missing)
  {
    if rows != [] && headers != [] then FrameFromLists(rows, headers) else None
  }

  /** The loop over the body rows, keeping those with a cell. */
  method CollectRows(body: seq<seq<string>>) returns (rows: seq<seq<string>>)
    ensures rows == NonEmptyRows(body)
  {
    rows := [];
    for k := 0 to |body|
      invariant rows == NonEmptyRows(body[..k])
    {
      assert body[..k + 1] == body[..k] + [body[k]];
      FilterAppend(body[..k], body[k], NonEmpty);
      if body[k] != [] {
        rows := rows + [body[k]];
      }
    }
    assert body[..|body|] == body;
  }

  /** `_parse_html_table` */
  method ParseHtmlTable(table: Option<HtmlTable>) returns (result: Option<Table>)
    ensures result == ParseHtmlTableSpec(table)
  {
    if table.None? {
      return None;
    }
    var headers := Headers(table.value);
    var rows := CollectRows(BodyRows(table.value));
    if rows != [] && headers != [] {
      return FrameFromLists(rows, headers);
    }
    return None;
  }

  // ---------------------------------------------------------------------
  // Strategy 3: `_extract_from_div_lists`

  /** The selectors tried, in order. */
  function Selectors(): seq<string> {
    ["div.item", "div.card", "div.product", "article", "li.item", "li.result"]
  }

  /** One `p`, `span`, `a`, `h2` or `h3` element of an item: its tag name and its text. */
  datatype Element = Element(tag: string, text: string)

  /** A row dict: its keys in insertion order and its entries. */
  datatype Row = Row(keys: seq<string>, values: map<string, string>)

  ghost predicate RowShape(row: Row) {
    Distinct(row.keys) && forall x :: x in row.values <==> x in row.keys
  }

  /** The last element before `n` with a non-empty text sets the entry of its tag. */
  predicate LastTextOf(item: seq<Element>, n: nat, k: nat)
    requires k < n <= |item|
  {
    item[k].text != "" && forall m :: k < m < n && item[m].tag == item[k].tag ==> item[m].text == ""
  }

  /** `row[elem.name] = text` for every element before `n` whose text is not empty. */
  function RowOf(item: seq<Element>, n: nat): (row: Row)
    requires n <= |item|
    ensures RowShape(row)
    ensures forall x :: x in row.values <==> exists k :: 0 <= k < n && item[k].tag == x && item[k].text != ""
  {
    if n == 0 then Row([], map[])
    else
      var prev := RowOf(item, n - 1);
      var e := item[n - 1];
      if e.text == "" then prev
      else Row(if e.tag in prev.values then prev.keys else prev.keys + [e.tag], prev.values[e.tag := e.text])
  }

  /** The entry of a tag is the text of the last element of that tag with a non-empty text. */
  lemma {:induction false} RowOfLastText(item: seq<Element>, n: nat, k: nat)
    requires k < n <= |item| && LastTextOf(item, n, k)
    ensures item[k].tag in RowOf(item, n).values && RowOf(item, n).values[item[k].tag] == item[k].text
  {
    if k < n - 1 {
      RowOfLastText(item, n - 1, k);
    }
  }

  /** The loop over the elements of one item. */
  method ItemRow(item: seq<Element>) returns (row: Row)
    ensures row == RowOf(item, |item|)
  {
    row := Row([], map[]);
    for n := 0 to |item|
      invariant row == RowOf(item, n)
    {
      var e := item[n];
      if e.text != "" {
        var keys := if e.tag in row.values then row.keys else row.keys + [e.tag];
        row := Row(keys, row.values[e.tag := e.text]);
      }
    }
  }

  /** The rows of the items before `n` that yield a non-empty row. */
  function ItemRows(items: seq<seq<Element>>, n: nat): (rows: seq<Row>)
    requires n <= |items|
    ensures forall i :: 0 <= i < |rows| ==> rows[i].values != map[]
  {
    if n == 0 then []
    else
      var row := RowOf(items[n - 1], |items[n - 1]|);
      ItemRows(items, n - 1) + (if row.values != map[] then [row] else [])
  }

  /** One more item adds its row exactly when that row is non-empty. */
  lemma ItemRowsNext(items: seq<seq<Element>>, n: nat)
    requires n < |items|
    ensures RowOf(items[n], |items[n]|).values != map[] ==>
      ItemRows(items, n + 1) == ItemRows(items, n) + [RowOf(items[n], |items[n]|)]
    ensures RowOf(items[n], |items[n]|).values == map[] ==>
      ItemRows(items, n + 1) == ItemRows(items, n)
  {
  }

  /** `names[j]` is neither in `acc` nor earlier in `names`. */
  predicate NewAt(acc: seq<string>, names: seq<string>, j: nat)
    requires j < |names|
  {
    names[j] !in acc && names[j] !in names[..j]
  }

  /**
   * `names` appended to `acc` in order, skipping those already there: after
   * `acc` come, in their order, exactly the names that are new at their position.
   */
  function AddNew(acc: seq<string>, names: seq<string>): (r: seq<string>)
    ensures |acc| <= |r| && r[..|acc|] == acc
    ensures exists idx: seq<nat> :: PicksAt(r[|acc|..], names, idx) && forall j :: 0 <= j < |names| ==> (j in idx <==> NewAt(acc, names, j))
    ensures Distinct(acc) ==> Distinct(r)
    ensures forall x :: x in r <==> x in acc || x in names
  {
    var idx := Select(|names|, (j: nat) => j < |names| && NewAt(acc, names, j), 0);
    var added := seq(|idx|, k requires 0 <= k < |idx| => names[idx[k]]);
    AddNewFacts(acc, names, idx, added);
    assert (acc + added)[|acc|..] == added && PicksAt(added, names, idx);
    acc + added
  }

  /** The names picked at the new positions are not in `acc`, are pairwise distinct, and cover every name. */
  lemma AddNewFacts(acc: seq<string>, names: seq<string>, idx: seq<nat>, added: seq<string>)
    requires forall k :: 0 <= k < |idx| ==> idx[k] < |names| && NewAt(acc, names, idx[k])
    requires forall k, l :: 0 <= k < l < |idx| ==> idx[k] < idx[l]
    requires forall j :: 0 <= j < |names| && NewAt(acc, names, j) ==> j in idx
    requires |added| == |idx| && forall k :: 0 <= k < |idx| ==> added[k] == names[idx[k]]
    ensures Distinct(acc) ==> Distinct(acc + added)
    ensures forall x :: x in acc + added <==> x in acc || x in names
  {
    var r := acc + added;
    if Distinct(acc) {
      forall k, l | 0 <= k < l < |r|
        ensures r[k] != r[l]
      {
        if l >= |acc| {
          var b := idx[l - |acc|];
          if k < |acc| {
            assert r[k] in acc;
          } else {
            var a := idx[k - |acc|];
            assert names[a] in names[..b];
          }
        }
      }
    }
    forall x | x in names && x !in acc
      ensures x in added
    {
      var j := FirstIndex(names, x);
      assert NewAt(acc, names, j);
      var k :| 0 <= k < |idx| && idx[k] == j;
    }
  }

  /** The first position of `x` in `names`. */
  lemma FirstIndex(names: seq<string>, x: string) returns (j: nat)
    requires x in names
    ensures j < |names| && names[j] == x && x !in names[..j]
  {
    j := 0;
    while names[j] != x
      decreases |names| - j
      invariant j < |names| && x in names[j..] && x !in names[..j]
    {
      assert names[j..] == [names[j]] + names[j + 1..];
      j := j + 1;
    }
  }

  /** The columns of `pd.DataFrame(data)`: the keys of the row dicts in order of first appearance. */
  function FrameColumns(rows: seq<Row>): (cols: seq<string>)
    ensures Distinct(cols)
    ensures forall x :: x in cols <==> exists i :: 0 <= i < |rows| && x in rows[i].keys
  {
    if rows == [] then []
    else
      var prev := FrameColumns(rows[..|rows| - 1]);
      assert forall i :: 0 <= i < |rows| - 1 ==> rows[..|rows| - 1][i] == rows[i];
      AddNew(prev, rows[|rows| - 1].keys)
  }

  /** `pd.DataFrame(data)` for a list of row dicts: a key a row lacks gives a missing cell. */
  function Frame(rows: seq<Row>): (t: Table)
    ensures WellFormed(t) && t.columns == FrameColumns(rows) && |t.rows| == |rows|
    ensures forall i, j :: 0 <= i < |rows| && 0 <= j < |t.columns| ==>
      t.rows[i][j] == (if t.columns[j] in rows[i].values then Text(rows[i].values[t.columns[j]]) else Missing)
  {
    var cols := FrameColumns(rows);
    Table(cols, seq(|rows|, i requires 0 <= i < |rows| =>
      seq(|cols|, j requires 0 <= j < |cols| => if cols[j] in rows[i].values then Text(rows[i].values[cols[j]]) else Missing)))
  }

  /** The row dicts the items of the `s`-th selector give. */
  function SelectorRows(matches: seq<seq<seq<Element>>>, s: nat): seq<Row>
    requires s < |matches|
  {
    ItemRows(matches[s], |matches[s]|)
  }

  /** The `k`-th selector is the first from the `s`-th whose items give a row. */
  predicate FirstGivingRows(matches: seq<seq<seq<Element>>>, s: nat, k: nat) {
    s <= k < |matches| && SelectorRows(matches, k) != []
    && forall m :: s <= m < k ==> SelectorRows(matches, m) == []
  }

  /**
   * Selector by selector from the `s`-th, the frame of the first one whose
   * items give a row; none when no later selector gives one.
   */
  function DivTableFrom(matches: seq<seq<seq<Element>>>, s: nat): (r: Option<Table>)
    requires s <= |matches|
    ensures r.Some? ==> WellFormed(r.value) && |r.value.rows| > 0
    ensures r.None? <==> forall k :: s <= k < |matches| ==> SelectorRows(matches, k) == []
    ensures r.Some? ==> exists k :: FirstGivingRows(matches, s, k) && r == Some(Frame(SelectorRows(matches, k)))
    decreases |matches| - s
  {
    if s == |matches| then None
    else if SelectorRows(matches, s) != [] then
      assert FirstGivingRows(matches, s, s);
      Some(Frame(SelectorRows(matches, s)))
    else
      var r := DivTableFrom(matches, s + 1);
      FirstGivingRowsBefore(matches, s, r);
      r
  }

  /** When the `s`-th selector gives no row, the first from `s + 1` is the first from `s`. */
  lemma FirstGivingRowsBefore(matches: seq<seq<seq<Element>>>, s: nat, r: Option<Table>)
    requires s < |matches| && SelectorRows(matches, s) == []
    requires r.Some? ==> exists k :: FirstGivingRows(matches, s + 1, k) && r == Some(Frame(SelectorRows(matches, k)))
    ensures r.Some? ==> exists k :: FirstGivingRows(matches, s, k) && r == Some(Frame(SelectorRows(matches, k)))
  {
    if r.Some? {
      var k :| FirstGivingRows(matches, s + 1, k) && r == Some(Frame(SelectorRows(matches, k)));
      FirstGivingRowsExtend(matches, s, k);
    }
  }

  lemma FirstGivingRowsExtend(matches: seq<seq<seq<Element>>>, s: nat, k: nat)
    requires s < |matches| && SelectorRows(matches, s) == [] && FirstGivingRows(matches, s + 1, k)
    ensures FirstGivingRows(matches, s, k)
  {
  }

  /** The loop over the items of one selector, appending each non-empty row. */
  method CollectItemRows(items: seq<seq<Element>>, data: seq<Row>) returns (data': seq<Row>)
    ensures data' == data + ItemRows(items, |items|)
  {
    data' := data;
    for n := 0 to |items|
      invariant data' == data + ItemRows(items, n)
    {
      var row := ItemRow(items[n]);
      ItemRowsNext(items, n);
      if row.values != map[] {
        data' := data' + [row];
      }
    }
  }

  /**
   * `_extract_from_div_lists`, where `matches[s]` holds the items
   * `soup.select(Selectors()[s])` finds.
   */
  method ExtractFromDivLists(matches: seq<seq<seq<Element>>>) returns (result: Option<Table>)
    requires |matches| == |Selectors()|
    ensures result == DivTableFrom(matches, 0)
  {
    var data: seq<Row> := [];
    for s := 0 to |matches|
      invariant data == []
      invariant DivTableFrom(matches, 0) == DivTableFrom(matches, s)
    {
      var items := matches[s];
      if items != [] {
        data := CollectItemRows(items, data);
        assert data == SelectorRows(matches, s);
        if data != [] {
          return Some(Frame(data));
        }
      }
    }
    return None;
  }

  // ---------------------------------------------------------------------
  // The cascade

  /** What one successful request gives the strategies to work on. */
  datatype Response = Response(
    contentType: string,          // the `content-type` header, '' when absent
    csv: Option<Table>,           // `pd.read_csv` of the body, none when it raises
    htmlTables: Option<seq<Table>>, // `pd.read_html` of the body, none when it raises
    htmlTextLabels: seq<bool>,    // per table read: its column labels are text (false: numbered or multi-level)
    table: Option<HtmlTable>,     // the first `<table>` element
    matches: seq<seq<seq<Element>>>) // the items each of the selectors finds, in `Selectors()` order

  predicate ResponseWellFormed(r: Response) {
    (r.csv.Some? ==> WellFormed(r.csv.value))
    && |r.matches| == |Selectors()|
    && (r.htmlTables.Some? ==> |r.htmlTextLabels| == |r.htmlTables.value| && forall d :: d in r.htmlTables.value ==> WellFormed(d))
  }

  /** Strategy 0 applies: `'csv' in content_type or url_lower.endswith('.csv')`. */
  predicate CsvApplies(url: string, r: Response) {
    Contains(Lower(r.contentType), "csv") || EndsWith(Lower(url), ".csv")
  }

  /** Strategy 1 applies: `'text/html' in content_type or url_lower.startswith('http')`. */
  predicate HtmlApplies(url: string, r: Response) {
    Contains(Lower(r.contentType), "text/html") || StartsWith(Lower(url), "http")
  }

  /** The result of each strategy on its own, in cascade order; none when it does not apply. */
  function StrategyResults(url: string, r: Response): (rs: seq<Option<Table>>)
    ensures |rs| == 4
  {
    [ if CsvApplies(url, r) then r.csv else None,
      if HtmlApplies(url, r) && r.htmlTables.Some? then ChooseTable(r.htmlTables.value) else None,
      ParseHtmlTableSpec(r.table),
      DivTableFrom(r.matches, 0) ]
  }

  /** The cascade: each strategy runs only while `df is None`. */
  function Cascade(url: string, r: Response): (df: Option<Table>)
    requires ResponseWellFormed(r)
    ensures df.Some? ==> WellFormed(df.value)
  {
    var df0 := if CsvApplies(url, r) then r.csv else None;
    var df1 := if df0.None? && HtmlApplies(url, r) && r.htmlTables.Some? then ChooseTable(r.htmlTables.value) else df0;
    var df2 := if df1.None? then ParseHtmlTableSpec(r.table) else df1;
    if df2.None? then DivTableFrom(r.matches, 0) else df2
  }

  /** Strategy 1 gives the cascade's frame: no CSV frame before it, and `read_html` found a usable table. */
  predicate ChosenByReadHtml(url: string, r: Response) {
    (!CsvApplies(url, r) || r.csv.None?) && HtmlApplies(url, r)
    && r.htmlTables.Some? && LongestUsable(r.htmlTables.value, |r.htmlTables.value|).Some?
  }

  /**
   * The cascade's frame has text column labels, so `df.columns.str.strip()`
   * accepts it. Only a `read_html` table can lack them: pandas numbers the
   * columns of a table with no header row, and gives a header of several
   * rows several levels.
   */
  predicate CascadeLabelsText(url: string, r: Response)
    requires ResponseWellFormed(r)
  {
    ChosenByReadHtml(url, r) ==> r.htmlTextLabels[LongestUsable(r.htmlTables.value, |r.htmlTables.value|).value]
  }

  /** When strategy 1 gives a table, the cascade's frame is that table and strategies 2 and 3 are not consulted. */
  lemma ReadHtmlFrame(url: string, r: Response)
    requires ResponseWellFormed(r) && ChosenByReadHtml(url, r)
    ensures Cascade(url, r) == ChooseTable(r.htmlTables.value)
    ensures Cascade(url, r).Some?
  {
  }

  /** The first result that is not none, or none. */
  function FirstSome(rs: seq<Option<Table>>): (r: Option<Table>)
    ensures r.None? <==> forall k :: 0 <= k < |rs| ==> rs[k].None?
    ensures r.Some? ==> exists k :: 0 <= k < |rs| && rs[k] == r && forall m :: 0 <= m < k ==> rs[m].None?
  {
    if rs == [] then None
    else if rs[0].Some? then rs[0]
    else
      var r := FirstSome(rs[1..]);
      assert r.Some? ==> exists k :: 0 <= k < |rs| && rs[k] == r && forall m :: 0 <= m < k ==> rs[m].None? by {
        if r.Some? {
          var k :| 0 <= k < |rs[1..]| && rs[1..][k] == r && forall m :: 0 <= m < k ==> rs[1..][m].None?;
          assert rs[k + 1] == r;
        }
      }
      r
  }

  /** The cascade gives the first strategy result that is not none, and none only when every strategy gives none. */
  lemma CascadeIsFirstResult(url: string, r: Response)
    requires ResponseWellFormed(r)
    ensures Cascade(url, r) == FirstSome(StrategyResults(url, r))
  {
    var rs := StrategyResults(url, r);
    FirstSomeOfFour(rs[0], rs[1], rs[2], rs[3]);
    assert rs == [rs[0], rs[1], rs[2], rs[3]];
  }

  lemma FirstSomeOfFour(a: Option<Table>, b: Option<Table>, c: Option<Table>, d: Option<Table>)
    ensures FirstSome([a, b, c, d]) == if a.Some? then a else if b.Some? then b else if c.Some? then c else d
  {
    assert [d][1..] == [];
    assert FirstSome([d]) == d;
    assert [c, d][1..] == [d];
    assert FirstSome([c, d]) == if c.Some? then c else d;
    assert [b, c, d][1..] == [c, d];
    assert FirstSome([b, c, d]) == if b.Some? then b else if c.Some? then c else d;
    assert [a, b, c, d][1..] == [b, c, d];
  }

  /** A strategy that returns an empty table stops the cascade all the same. */
  lemma EmptyCsvStopsCascade(url: string, r: Response)
    requires ResponseWellFormed(r) && CsvApplies(url, r) && r.csv.Some? && |r.csv.value.rows| == 0
    ensures Cascade(url, r) == r.csv
  {
  }
}
