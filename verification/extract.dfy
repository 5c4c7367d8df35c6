/**
 * The pure part of the Numbeo scraper: choosing country names from the
 * index page's links, building one detail URL per country, folding the rows
 * of a country page's data tables into records, and accumulating the
 * records of all countries. Fetching and HTML parsing are not modelled: a
 * fetch is an `Option` (`None` for a failed request) of an already parsed
 * page.
 */

/** Country names from the links of the index page's `related_links` table. */
module Discovery {
  import opened Wrappers
  import opened Text

  /** An `<a>` element of the `related_links` table: whether it carries an
      `href` attribute, and its visible text. */
  datatype Anchor = Anchor(hasHref: bool, text: string)

  /** The index page as the scraper reads it: the anchors, in document
      order, of its table of class `related_links`, or `None` when it has no
      such table. */
  datatype IndexPage = IndexPage(relatedLinks: Option<seq<Anchor>>)

  /** The country name one anchor contributes: its trimmed text, when the
      anchor has an `href` and the trimmed text is not empty. */
  function NameOf(a: Anchor): (r: Option<string>)
    ensures r.Some? ==> a.hasHref && r.value != [] && Strip(r.value) == r.value && r.value == Strip(a.text)
    ensures r.None? ==> !a.hasHref || forall i :: 0 <= i < |a.text| ==> IsSpace(a.text[i])
  {
    var name := Strip(a.text);
    if a.hasHref && name != [] then
      StripStripped(name);
      Some(name)
    else
      None
  }

  /** The loop of `fetch_country_names`: the kept names in document order,
      duplicates included. */
  function CountryNames(anchors: seq<Anchor>): (names: seq<string>)
    ensures |names| <= |anchors|
    ensures forall k :: 0 <= k < |names| ==> names[k] != [] && Strip(names[k]) == names[k]
  {
    if |anchors| == 0 then []
    else
      match NameOf(anchors[0])
      case None => CountryNames(anchors[1..])
      case Some(n) => [n] + CountryNames(anchors[1..])
  }

  /** The names of consecutive runs of anchors are the concatenation of
      their names: the filter keeps order and never merges or drops
      repeated names. */
  lemma {:induction false} CountryNamesAppend(a: seq<Anchor>, b: seq<Anchor>)
    ensures CountryNames(a + b) == CountryNames(a) + CountryNames(b)
  {
    if |a| == 0 {
      assert a + b == b;
    } else {
      assert (a + b)[0] == a[0];
      assert (a + b)[1..] == a[1..] + b;
      CountryNamesAppend(a[1..], b);
    }
  }

  /** One anchor contributes exactly its `NameOf`. */
  lemma CountryNamesSingle(a: Anchor)
    ensures CountryNames([a]) == match NameOf(a) case None => [] case Some(n) => [n]
  {
    assert [a][1..] == [];
  }

  /** `fetch_country_names`: a failed request and a page without the
      `related_links` table both give no names. */
  function FetchCountryNames(page: Option<IndexPage>): (names: seq<string>)
    ensures page.None? || page.value.relatedLinks.None? ==> names == []
    ensures page.Some? && page.value.relatedLinks.Some? ==> names == CountryNames(page.value.relatedLinks.value)
  {
    match page
    case None => []
    case Some(IndexPage(None)) => []
    case Some(IndexPage(Some(anchors))) => CountryNames(anchors)
  }
}

/** `construct_urls`: one detail URL per country name. */
module Planner {
  import opened Wrappers
  import opened UrlCodec

  datatype FetchTarget = FetchTarget(name: string, url: string)

  const CountryKey: string := "?country="
  const CurrencySuffix: string := "&displayCurrency=EUR"

  /** The detail URL of one country, prices in euros. */
  function CountryUrl(base: string, name: string): string {
    base + CountryKey + QuotePlus(name) + CurrencySuffix
  }

  /** A name made only of unreserved characters appears in its URL as it is. */
  lemma PlainCountryUrl(base: string, name: string)
    requires forall k :: 0 <= k < |name| ==> IsUnreserved(name[k])
    ensures CountryUrl(base, name) == base + "?country=" + name + "&displayCurrency=EUR"
  {
    QuotePlusUnreserved(name);
  }

  /** `construct_urls(base, names)`: one target per name, in order, keeping
      the name as given. */
  function ConstructUrls(base: string, names: seq<string>): (targets: seq<FetchTarget>)
    ensures |targets| == |names|
    ensures forall k :: 0 <= k < |names| ==> targets[k].name == names[k] && targets[k].url == CountryUrl(base, names[k])
  {
    if |names| == 0 then []
    else [FetchTarget(names[0], CountryUrl(base, names[0]))] + ConstructUrls(base, names[1..])
  }

  /** The position of the first `c` in `s`, or `|s|` when there is none. */
  function IndexOf(s: string, c: char): (k: nat)
    ensures k <= |s|
    ensures c !in s[..k]
    ensures k < |s| ==> s[k] == c
  {
    if |s| == 0 then 0
    else if s[0] == c then 0
    else
      var k := 1 + IndexOf(s[1..], c);
      assert s[..k] == [s[0]] + s[1..][..k - 1];
      k
  }

  /** How the server reads the `country` parameter of a URL built on `base`:
      the text after `?country=` up to the next `&`, unquoted with
      `unquote_plus`. */
  function CountryParam(base: string, url: string): Option<string> {
    var prefix := base + CountryKey;
    if |prefix| <= |url| && url[..|prefix|] == prefix then
      var rest := url[|prefix|..];
      UnquotePlus(rest[..IndexOf(rest, '&')])
    else
      None
  }

  /** Every planned URL hands the server back the exact country name, however
      many spaces, `&`, `=`, `?`, `#` or non-ASCII letters it holds. */
  lemma CountryParamRoundTrip(base: string, name: string)
    ensures CountryParam(base, CountryUrl(base, name)) == Some(name)
  {
    var prefix := base + CountryKey;
    var q := QuotePlus(name);
    var url := CountryUrl(base, name);
    assert url == prefix + (q + CurrencySuffix);
    assert url[..|prefix|] == prefix;
    var rest := url[|prefix|..];
    assert rest == q + CurrencySuffix;
    QuotePlusIsQuerySafe(name);
    var k := IndexOf(rest, '&');
    assert rest[|q|] == '&';
    assert k == |q|;
    assert rest[..k] == q;
    QuotePlusRoundTrip(name);
  }

  lemma ConstructUrlsRoundTrip(base: string, names: seq<string>)
    ensures forall k :: 0 <= k < |names| ==> CountryParam(base, ConstructUrls(base, names)[k].url) == Some(names[k])
  {
    forall k | 0 <= k < |names|
      ensures CountryParam(base, ConstructUrls(base, names)[k].url) == Some(names[k])
    {
      CountryParamRoundTrip(base, names[k]);
    }
  }
}

/** The row fold of `parse_country_page`. */
module Extractor {
  import opened Wrappers
  import opened Text

  const Nbsp: char := '\U{A0}'

  /** A `<tr>` of a data table. A row holding a `<th class="highlighted_th">`
      is a category header whatever else it holds: `title` is the text of
      its `<div class="category_title">` when there is one, and `cells` are
      the texts of its `<td>`s, which the scraper never reads. Any other row
      is a data row with the texts of its `<td>`s. */
  datatype Row = Header(title: Option<string>, cells: seq<string>) | Data(cells: seq<string>)

  type Table = seq<Row>

  /** The tables of class `data_wide_table new_bar_table` of a country page,
      in document order. */
  type DetailPage = seq<Table>

  /** One output line: country, category, item, value, range. */
  datatype Record = Record(country: string, category: Option<string>, item: string, value: string, range: string)

  /** `.replace('\xa0', ' ')`: each no-break space becomes a plain space and
      nothing else changes. */
  function SpaceNbsp(t: string): (r: string)
    ensures Nbsp !in r
    ensures |r| == |t|
    ensures forall i :: 0 <= i < |t| && t[i] == Nbsp ==> r[i] == ' '
    ensures forall i :: 0 <= i < |t| && t[i] != Nbsp ==> r[i] == t[i]
  {
    ReplaceChar(t, Nbsp, ' ')
  }

  /** What one row emits under the current category: nothing for a header,
      nothing for a data row of fewer than two cells, otherwise one record
      whose item is the first cell, value the second, range the third or
      empty. */
  function RowRecords(country: string, category: Option<string>, row: Row): (out: seq<Record>)
    ensures |out| <= 1
    ensures out != [] <==> row.Data? && |row.cells| >= 2
    ensures out != [] ==> && out[0].country == country
                          && out[0].category == category
                          && out[0].item == row.cells[0]
                          && out[0].value == SpaceNbsp(row.cells[1])
                          && out[0].range == (if |row.cells| >= 3 then SpaceNbsp(row.cells[2]) else "")
  {
    match row
    case Header(_, _) => []
    case Data(cells) =>
      if |cells| >= 2 then
        [Record(country, category, cells[0], SpaceNbsp(cells[1]), if |cells| >= 3 then SpaceNbsp(cells[2]) else "")]
      else []
  }

  /** The category after a row: a titled header replaces it; an untitled
      header and a data row keep it. */
  function NextCategory(category: Option<string>, row: Row): Option<string> {
    match row
    case Header(Some(t), _) => Some(t)
    case _ => category
  }

  /** The loop over the rows of one table, carrying `current_category`. */
  function ScanRows(country: string, category: Option<string>, rows: seq<Row>): (out: seq<Record>)
    ensures |out| <= |rows|
    ensures forall r :: r in out ==> r.country == country && Nbsp !in r.value && Nbsp !in r.range
    decreases |rows|
  {
    if |rows| == 0 then []
    else RowRecords(country, category, rows[0]) + ScanRows(country, NextCategory(category, rows[0]), rows[1..])
  }

  /** One table, starting with no category. */
  function ScanTable(country: string, table: Table): seq<Record> {
    ScanRows(country, None, table)
  }

  /** All tables of a page, each starting afresh, results in table order. */
  function ScanTables(country: string, tables: seq<Table>): (out: seq<Record>)
    ensures forall r :: r in out ==> r.country == country && Nbsp !in r.value && Nbsp !in r.range
  {
    if |tables| == 0 then [] else ScanTable(country, tables[0]) + ScanTables(country, tables[1..])
  }

  /** `parse_country_page`: a failed request gives no records, and so does a
      page without data tables. */
  function ParseCountryPage(country: string, fetched: Option<DetailPage>): (out: seq<Record>)
    ensures fetched.None? ==> out == []
    ensures fetched.Some? && fetched.value == [] ==> out == []
    ensures fetched.Some? ==> out == ScanTables(country, fetched.value)
    ensures forall r :: r in out ==> r.country == country && Nbsp !in r.value && Nbsp !in r.range
  {
    match fetched
    case None => []
    case Some(tables) => ScanTables(country, tables)
  }

  /** The title of the last titled header before row `k`, looking back from
      `k` without any carried state; `None` when there is none. */
  ghost function CategoryBefore(table: Table, k: nat): Option<string>
    requires k <= |table|
  {
    if k == 0 then None
    else match table[k - 1]
      case Header(Some(t), _) => Some(t)
      case _ => CategoryBefore(table, k - 1)
  }

  /** The records of rows `j..` of a table, each row judged on its own under
      `CategoryBefore`. */
  ghost function RowByRow(country: string, table: Table, j: nat): seq<Record>
    requires j <= |table|
    decreases |table| - j
  {
    if j == |table| then [] else RowRecords(country, CategoryBefore(table, j), table[j]) + RowByRow(country, table, j + 1)
  }

  /** The carried-state fold equals the row-by-row reading: the category a
      row's record carries is the title of the most recent titled header
      before it in the same table. */
  lemma {:induction false} ScanRowsRowByRow(country: string, table: Table, j: nat)
    requires j <= |table|
    ensures ScanRows(country, CategoryBefore(table, j), table[j..]) == RowByRow(country, table, j)
    decreases |table| - j
  {
    if j < |table| {
      assert table[j..][0] == table[j];
      assert table[j..][1..] == table[j + 1..];
      assert NextCategory(CategoryBefore(table, j), table[j]) == CategoryBefore(table, j + 1);
      ScanRowsRowByRow(country, table, j + 1);
    }
  }

  lemma ScanTableRowByRow(country: string, table: Table)
    ensures ScanTable(country, table) == RowByRow(country, table, 0)
  {
    ScanRowsRowByRow(country, table, 0);
    assert table[0..] == table;
  }

  /** Before the first titled header of a table, rows have no category. */
  lemma {:induction false} CategoryBeforeFirstHeader(table: Table, k: nat)
    requires k <= |table|
    requires forall h :: 0 <= h < k ==> !(table[h].Header? && table[h].title.Some?)
    ensures CategoryBefore(table, k) == None
  {
    if k > 0 {
      CategoryBeforeFirstHeader(table, k - 1);
    }
  }

  /** After a titled header, rows inherit its title until the next titled
      header. */
  lemma {:induction false} CategoryBeforeInherits(table: Table, h: nat, k: nat)
    requires h < k <= |table|
    requires table[h].Header? && table[h].title.Some?
    requires forall g :: h < g < k ==> !(table[g].Header? && table[g].title.Some?)
    ensures CategoryBefore(table, k) == table[h].title
  {
    if k - 1 > h {
      CategoryBeforeInherits(table, h, k - 1);
    }
  }

  /** No category crosses a table boundary: the records of consecutive runs
      of tables are the concatenation of their records. */
  lemma {:induction false} ScanTablesAppend(country: string, a: seq<Table>, b: seq<Table>)
    ensures ScanTables(country, a + b) == ScanTables(country, a) + ScanTables(country, b)
  {
    if |a| == 0 {
      assert a + b == b;
    } else {
      assert (a + b)[0] == a[0];
      assert (a + b)[1..] == a[1..] + b;
      ScanTablesAppend(country, a[1..], b);
    }
  }

  /** One table of a page contributes exactly its own scan, which starts
      with no category; with `ScanTablesAppend` this fixes the records of a
      page as its tables' records in table order. */
  lemma ScanTablesSingle(country: string, t: Table)
    ensures ScanTables(country, [t]) == ScanRows(country, None, t)
  {
    assert [t][1..] == [];
  }
}

/** The accumulation loop of `main`. */
module Driver {
  import opened Wrappers
  import opened Discovery
  import opened Planner
  import opened Extractor

  const BaseUrl: string := "https://www.numbeo.com/property-investment/country_result.jsp"
  const IndexUrl: string := "https://www.numbeo.com/property-investment/"

  /** The country names of the targets, in order. */
  function Names(targets: seq<FetchTarget>): (names: seq<string>)
    ensures |names| == |targets|
    ensures forall k :: 0 <= k < |targets| ==> names[k] == targets[k].name
  {
    if |targets| == 0 then [] else [targets[0].name] + Names(targets[1..])
  }

  /** `f(x)` for every `x` of `xs`, concatenated in order. */
  function Concat<T, U>(xs: seq<T>, f: T -> seq<U>): seq<U> {
    if |xs| == 0 then [] else f(xs[0]) + Concat(xs[1..], f)
  }

  lemma {:induction false} ConcatAppend<T, U>(xs: seq<T>, ys: seq<T>, f: T -> seq<U>)
    ensures Concat(xs + ys, f) == Concat(xs, f) + Concat(ys, f)
  {
    if |xs| == 0 {
      assert xs + ys == ys;
    } else {
      assert (xs + ys)[0] == xs[0];
      assert (xs + ys)[1..] == xs[1..] + ys;
      ConcatAppend(xs[1..], ys, f);
    }
  }

  /** The records of one target's page; `fetch(url)` is what the request for
      `url` returned. */
  function PageRecords(fetch: string -> Option<DetailPage>): FetchTarget -> seq<Record> {
    (t: FetchTarget) => ParseCountryPage(t.name, fetch(t.url))
  }

  /** The records of every target in turn. `HarvestSingle`, `HarvestAppend`
      and `HarvestCountries` state what it computes. */
  function Harvest(targets: seq<FetchTarget>, fetch: string -> Option<DetailPage>): seq<Record> {
    Concat(targets, PageRecords(fetch))
  }

  /** The total over consecutive runs of targets is the concatenation of
      their totals. */
  lemma HarvestAppend(a: seq<FetchTarget>, b: seq<FetchTarget>, fetch: string -> Option<DetailPage>)
    ensures Harvest(a + b, fetch) == Harvest(a, fetch) + Harvest(b, fetch)
  {
    ConcatAppend(a, b, PageRecords(fetch));
  }

  /** One target contributes exactly the records of its own page; with
      `HarvestAppend` the total is the in-order concatenation of the
      per-country results. */
  lemma HarvestSingle(t: FetchTarget, fetch: string -> Option<DetailPage>)
    ensures Harvest([t], fetch) == ParseCountryPage(t.name, fetch(t.url))
  {
    assert [t][1..] == [];
    assert Harvest([t], fetch) == PageRecords(fetch)(t) + Concat([], PageRecords(fetch));
  }

  /** Every harvested record belongs to one of the targets. */
  lemma {:induction false} HarvestCountries(targets: seq<FetchTarget>, fetch: string -> Option<DetailPage>)
    ensures forall r :: r in Harvest(targets, fetch) ==> r.country in Names(targets)
  {
    if |targets| > 0 {
      var here := ParseCountryPage(targets[0].name, fetch(targets[0].url));
      HarvestCountries(targets[1..], fetch);
      assert Names(targets) == [targets[0].name] + Names(targets[1..]);
      assert Harvest(targets, fetch) == here + Harvest(targets[1..], fetch);
    }
  }

  /** A country whose request fails, or whose page has no records, changes
      nothing: the run is as if it had not been in the list. */
  lemma HarvestSkipsEmpty(targets: seq<FetchTarget>, k: nat, fetch: string -> Option<DetailPage>)
    requires k < |targets|
    requires ParseCountryPage(targets[k].name, fetch(targets[k].url)) == []
    ensures Harvest(targets, fetch) == Harvest(targets[..k] + targets[k + 1..], fetch)
  {
    SplitAt(targets, k);
    HarvestSkip(targets[..k], targets[k], targets[k + 1..], fetch);
  }

  lemma SplitAt<T>(s: seq<T>, k: nat)
    requires k < |s|
    ensures s == s[..k] + ([s[k]] + s[k + 1..])
  {
  }

  lemma HarvestSkip(before: seq<FetchTarget>, t: FetchTarget, after: seq<FetchTarget>, fetch: string -> Option<DetailPage>)
    requires ParseCountryPage(t.name, fetch(t.url)) == []
    ensures Harvest(before + ([t] + after), fetch) == Harvest(before + after, fetch)
  {
    HarvestSkipFirst(t, after, fetch);
    HarvestSameTail(before, [t] + after, after, fetch);
  }

  lemma HarvestSkipFirst(t: FetchTarget, after: seq<FetchTarget>, fetch: string -> Option<DetailPage>)
    requires ParseCountryPage(t.name, fetch(t.url)) == []
    ensures Harvest([t] + after, fetch) == Harvest(after, fetch)
  {
    assert ([t] + after)[1..] == after;
  }

  lemma HarvestSameTail(before: seq<FetchTarget>, x: seq<FetchTarget>, y: seq<FetchTarget>, fetch: string -> Option<DetailPage>)
    requires Harvest(x, fetch) == Harvest(y, fetch)
    ensures Harvest(before + x, fetch) == Harvest(before + y, fetch)
  {
    HarvestAppend(before, x, fetch);
    HarvestAppend(before, y, fetch);
  }

  datatype RunOutcome =
    | NoCountries
    | NothingSaved(targets: seq<FetchTarget>)
    | Saved(targets: seq<FetchTarget>, records: seq<Record>)

  /** `main`: stop when no country is found; otherwise plan, harvest, and
      save when there is anything to save. */
  function Run(index: Option<IndexPage>, fetch: string -> Option<DetailPage>): (o: RunOutcome)
    ensures o.NoCountries? <==> FetchCountryNames(index) == []
    ensures !o.NoCountries? ==> |o.targets| == |FetchCountryNames(index)|
    ensures !o.NoCountries? ==> forall k :: 0 <= k < |o.targets| ==>
              o.targets[k].name == FetchCountryNames(index)[k] && o.targets[k].url == CountryUrl(BaseUrl, o.targets[k].name)
    ensures o.Saved? ==> o.records != [] && o.records == Harvest(o.targets, fetch)
    ensures !o.NoCountries? ==> (o.Saved? <==> Harvest(o.targets, fetch) != [])
    ensures o.Saved? ==> forall r :: r in o.records ==> r.country in FetchCountryNames(index)
  {
    var names := FetchCountryNames(index);
    if names == [] then NoCountries
    else
      var targets := ConstructUrls(BaseUrl, names);
      var records := Harvest(targets, fetch);
      HarvestCountries(targets, fetch);
      if records == [] then NothingSaved(targets) else Saved(targets, records)
  }
}
