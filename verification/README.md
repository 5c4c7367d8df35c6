# Numbeo property-investment scraper and value cleaner, in Dafny

This project models the pure core of a small Python pipeline. The pipeline
scrapes Numbeo's property-investment pages country by country and then turns
the scraped price strings into numbers.

The scraper has four pure steps, modelled in `extract.dfy`:

- **Discovery** (`fetch_country_names`) keeps the trimmed, non-empty texts of
  the links in the index page's `related_links` table. It keeps document
  order and does not deduplicate.
- **Planner** (`construct_urls`) builds one detail URL per name:
  `base + "?country=" + quote_plus(name) + "&displayCurrency=EUR"`.
- **Extractor** (`parse_country_page`) folds over the rows of every
  `data_wide_table new_bar_table` table. It carries the current category,
  which starts at `None` in every table. A category header row
  (`th.highlighted_th`) never emits a record. A data row with at least two
  cells emits one record. Every no-break space (U+00A0) in the value and
  range becomes a plain space.
- **Driver** (the loop of `main`) concatenates the per-country records in
  order. A failed request or an empty page contributes nothing.

`quote_plus` and `unquote_plus` are modelled from first principles:

- `utf8.dfy` holds strict UTF-8 encoding and decoding, following Table 3-7 of
  the Unicode Standard.
- `urlcodec.dfy` holds percent-encoding as in section 2.1 of RFC 3986. Only
  the unreserved characters of section 2.3 stay literal, hex digits are
  upper-case, and a space is written `+`.

The cleaner's two functions, `nettoyer_valeur` and `nettoyer_plage`, are
modelled in `cleaning.dfy`:

- Each first normalises the string: remove every `€`, `strip()`, and turn
  every `,` into `.`.
- Each then runs `re.search`, for `[-+]?[0-9]*\.?[0-9]+` or for
  `([-+]?[0-9]*\.?[0-9]+)\s*-\s*([-+]?[0-9]*\.?[0-9]+)` respectively.
- They return the matched text, not the Python `float`.

The regular expressions are written as scanners in `numberscan.dfy`, which
follow the order in which a backtracking matcher tries alternatives. They are
proved to return the leftmost match, and the longest one at that position.
The proof compares them with the languages `IsNumber` and `IsRangeAt`, which
are stated without reference to the scanners. `\s` and `str.strip()` both use
Python's `str.isspace` set (`Text.IsSpace`), which includes U+00A0.

A space used as a thousands separator cuts a number. `"1 000 €"` cleans to
`"1"`, and `"800 - 1 300"` cleans to `("800", "1")`. The model keeps this
behaviour of the code (`samples.dfy`).

Two behaviours of the code worth stating plainly, both kept by the model:

- The code keeps duplicate link texts: a country linked twice is planned and
  fetched twice. `Discovery.CountryNames` keeps them too.
- The code replaces every U+00A0 in value and range with a space
  (`extract_data_numbeo_brutte_pays_logement.py:94` and `:98`), so those
  strings do not reach the cleaner as the site printed them.
  `Extractor.RowRecords` does the same.

## Model

| member | source | states |
|---|---|---|
| Text.Strip | nettoyage_data_numbeo.py:8 | `str.strip()`: the result is an infix of the input that neither starts nor ends with white space; everything cut off on either side is white space; an empty result means the input was all white space |
| Text.StripKeeps | nettoyage_data_numbeo.py:8 | stripping removes only white space: every other character is in the result exactly when it is in the input |
| Text.StripStripped | extract_data_numbeo_brutte_pays_logement.py:36-37 | a string with no white space at either end is its own strip, so the kept link text is already trimmed |
| Text.ReplaceChar | nettoyage_data_numbeo.py:8 | `replace(a, b)` for single characters keeps the length; each position holds `b` where the input held `a` and the input character elsewhere |
| Text.RemoveChar | nettoyage_data_numbeo.py:8 | `replace('€', '')` leaves no `€` and keeps every other character's membership |
| Text.RemoveCharAppend | nettoyage_data_numbeo.py:8 | removal works piecewise: removing from a concatenation is concatenating the removals |
| Text.ReplaceCharKeeps | nettoyage_data_numbeo.py:8 | replacing `a` by `b` does not change whether any other character occurs |
| Utf8.EncodeChar | extract_data_numbeo_brutte_pays_logement.py:46 | one to four bytes per code point; exactly one for ASCII; every byte after the first is a continuation byte |
| Utf8.DecodeEncode | extract_data_numbeo_brutte_pays_logement.py:46 | decoding the UTF-8 encoding of any string gives the string back |
| Utf8.EncodeDecode | extract_data_numbeo_brutte_pays_logement.py:46 | any byte sequence the strict decoder accepts is the encoding of what it decodes to, so encoding is onto the accepted sequences |
| UrlCodec.Escape | extract_data_numbeo_brutte_pays_logement.py:46 | each byte becomes three characters, and every character written is `%` or an upper-case hex digit `0`-`9`, `A`-`F` |
| UrlCodec.EscapeDigits | extract_data_numbeo_brutte_pays_logement.py:46 | byte `k` is written at position `3k` as `%` and two upper-case hex digits whose value is the byte |
| UrlCodec.QuotePlus | extract_data_numbeo_brutte_pays_logement.py:46 | every character of `quote_plus(name)` is unreserved, `%` or `+`, and a `+` appears exactly when the name holds a space |
| UrlCodec.QuotePlusRoundTrip | extract_data_numbeo_brutte_pays_logement.py:46 | `unquote_plus(quote_plus(s)) == s` for every string, including spaces, `+`, `%`, `&` and non-ASCII letters |
| UrlCodec.QuotePlusIsQuerySafe | extract_data_numbeo_brutte_pays_logement.py:46-48 | the encoded name holds no space, `&`, `=`, `?` or `#`, so it cannot end the `country` parameter early |
| UrlCodec.QuotePlusAppend | extract_data_numbeo_brutte_pays_logement.py:46 | `quote_plus` encodes character by character: the encoding of a concatenation is the concatenation of the encodings |
| UrlCodec.QuotePlusUnreserved | extract_data_numbeo_brutte_pays_logement.py:46 | a name made only of unreserved characters is left as it is |
| UrlCodec.PercentDecodeQuote | extract_data_numbeo_brutte_pays_logement.py:46 | after `+` is read back as a space, percent-decoding a quoted string gives exactly the UTF-8 bytes of the original |
| Discovery.NameOf | extract_data_numbeo_brutte_pays_logement.py:35-37 | a link gives a name exactly when it has an `href` and its trimmed text is not empty; the name is that trimmed text |
| Discovery.CountryNames | extract_data_numbeo_brutte_pays_logement.py:35-38 | at most one name per link; every name is non-empty and already trimmed |
| Discovery.CountryNamesAppend | extract_data_numbeo_brutte_pays_logement.py:35-38 | the filter keeps order and never merges names: the names of consecutive runs of links are the concatenation of their names, duplicates included |
| Discovery.CountryNamesSingle | extract_data_numbeo_brutte_pays_logement.py:36-38 | one link contributes exactly its own name or nothing; with `CountryNamesAppend` this fixes the result for every list of links |
| Discovery.FetchCountryNames | extract_data_numbeo_brutte_pays_logement.py:17-40 | a failed request and a page without the `related_links` table give no names; otherwise the names of the table's links |
| Planner.ConstructUrls | extract_data_numbeo_brutte_pays_logement.py:42-53 | one target per name, in the same order, with the name kept as given and the URL `base + "?country=" + quote_plus(name) + "&displayCurrency=EUR"` |
| Planner.PlainCountryUrl | extract_data_numbeo_brutte_pays_logement.py:46-48 | a name of unreserved characters appears in its URL verbatim |
| Planner.CountryParamRoundTrip | extract_data_numbeo_brutte_pays_logement.py:46-48 | reading the `country` parameter back from a planned URL, up to the next `&`, and unquoting it gives the exact name |
| Planner.ConstructUrlsRoundTrip | extract_data_numbeo_brutte_pays_logement.py:42-53 | the same for every target of a plan: the server sees each name exactly as it was found |
| Extractor.SpaceNbsp | extract_data_numbeo_brutte_pays_logement.py:94 | `.replace('\xa0', ' ')` keeps the length, puts a plain space at every position that held U+00A0, and changes no other character |
| Extractor.RowRecords | extract_data_numbeo_brutte_pays_logement.py:82-109 | a row emits a record exactly when it is a data row with at least two cells, so a header emits nothing even with cells; item is the raw first cell; value is the second cell and range the third cell, or `""` when there are only two, both with no-break spaces replaced |
| Extractor.ScanRows | extract_data_numbeo_brutte_pays_logement.py:80-109 | at most one record per row; every record names the country and has no no-break space in its value or range |
| Extractor.ScanTables | extract_data_numbeo_brutte_pays_logement.py:78-109 | the same for all tables of a page |
| Extractor.ParseCountryPage | extract_data_numbeo_brutte_pays_logement.py:62-111 | a failed request or a page without data tables gives no records; a fetched page gives the scan of its tables; every record belongs to the requested country |
| Extractor.ScanRowsRowByRow | extract_data_numbeo_brutte_pays_logement.py:79-88 | the fold that carries `current_category` equals reading each row alone under the title of the most recent titled header before it in the same table |
| Extractor.ScanTableRowByRow | extract_data_numbeo_brutte_pays_logement.py:78-79 | every table starts with no category: its records are the row-by-row reading from the first row |
| Extractor.CategoryBeforeFirstHeader | extract_data_numbeo_brutte_pays_logement.py:79 | rows before the first titled header of a table have no category |
| Extractor.CategoryBeforeInherits | extract_data_numbeo_brutte_pays_logement.py:82-88 | after a titled header, later rows carry its title until the next titled header; an untitled header changes nothing |
| Extractor.ScanTablesAppend | extract_data_numbeo_brutte_pays_logement.py:78-111 | records follow table order and no category crosses a table boundary |
| Extractor.ScanTablesSingle | extract_data_numbeo_brutte_pays_logement.py:78-111 | one table contributes exactly its own row fold, started with no category; with `ScanTablesAppend` a page's records are its tables' records in table order |
| Driver.HarvestCountries | extract_data_numbeo_brutte_pays_logement.py:149-160 | every collected record belongs to one of the planned countries |
| Driver.HarvestSingle | extract_data_numbeo_brutte_pays_logement.py:151-157 | one country contributes exactly the records `parse_country_page` returns for its URL |
| Driver.HarvestAppend | extract_data_numbeo_brutte_pays_logement.py:151-157 | the total is the in-order concatenation of the per-country results |
| Driver.HarvestSkipsEmpty | extract_data_numbeo_brutte_pays_logement.py:155-160 | a country whose request fails or whose page has no records changes nothing: the result is as if it were not in the list |
| Driver.Run | extract_data_numbeo_brutte_pays_logement.py:135-166 | the run stops when no country is found; otherwise it plans one URL per found name in order; it saves exactly when the harvest is non-empty, and what it saves is the harvest, whose records all belong to found countries |
| NumberScan.UnsignedEndLongest | nettoyage_data_numbeo.py:10 | no match of `[0-9]*\.?[0-9]+` at a position reaches beyond what the greedy scanner takes there |
| NumberScan.NumberEnd | nettoyage_data_numbeo.py:10 | what the number scanner takes at a position is a number: optional sign, digits and at most one dot, ending in a digit |
| NumberScan.NumberEndLongest | nettoyage_data_numbeo.py:10 | every number starting at a position is found by the scanner there, and is no longer than what it takes |
| NumberScan.Search | nettoyage_data_numbeo.py:10 | `re.search` for the number pattern: a found match is a number, no number starts further left, and none is longer at its start; no match means no number anywhere |
| NumberScan.SearchFindsIffDigit | nettoyage_data_numbeo.py:10-16 | the number pattern matches exactly when the string holds an ASCII digit |
| NumberScan.NumberEndsInDigit | nettoyage_data_numbeo.py:10 | every number ends in a digit |
| NumberScan.DashAndSecondSound | nettoyage_data_numbeo.py:24 | after the first group: white space, `-`, white space and a number, in that order |
| NumberScan.RangeAt | nettoyage_data_numbeo.py:24 | the range pattern tried at one position: what it finds is a range match, and every range match there has the same first number, dash and second-number start, and a second number no longer |
| NumberScan.RangeForced | nettoyage_data_numbeo.py:24 | the positions of any range match are forced by its start, so backtracking never finds a different first group |
| NumberScan.RangeSearch | nettoyage_data_numbeo.py:24 | `re.search` for the range pattern: the leftmost range match, with the greedy choices at its start; none means no range match anywhere |
| Cleaning.Normalise | nettoyage_data_numbeo.py:8 | after normalisation there is no `€`, no `,` and no white space at either end, and an ASCII digit occurs exactly when it occurred before |
| Cleaning.NormaliseCommas | nettoyage_data_numbeo.py:8 | after the `€` removal and the strip, each `,` becomes a `.` in place and every other character stays where it was |
| Cleaning.NormaliseClean | nettoyage_data_numbeo.py:22 | text with no `€`, no `,` and no surrounding white space is already normal |
| Cleaning.CleanValue | nettoyage_data_numbeo.py:4-16 | `None` for a missing value; otherwise a result exactly when the raw text holds an ASCII digit, and the result is the leftmost longest number of the normalised text |
| Cleaning.CleanRange | nettoyage_data_numbeo.py:18-32 | `None` for a missing or blank value; otherwise a pair exactly when the normalised text holds `number \s* - \s* number`, and the pair is the two numbers of the leftmost such match |
| Samples.ValueWithSpacedThousands | nettoyage_data_numbeo.py:8-13 | `"1 000 €"` cleans to `"1"`: the space cuts the number |
| Samples.ValueWithCommaThousands | nettoyage_data_numbeo.py:8-13 | `"1,300.50 €"` cleans to `"1.300"`: the comma becomes a second dot and the match stops before it |
| Samples.RangeWithSpacedThousands | nettoyage_data_numbeo.py:22-29 | `"800 - 1 300"` cleans to `("800", "1")` |
| Scenario.OneTable | extract_data_numbeo_brutte_pays_logement.py:78-109 | a "Rent" header followed by one three-cell data row gives one record under "Rent", with value and range as printed |

## Left out

- HTTP requests, request headers and `raise_for_status` are left out. A fetch
  is an `Option` of an already parsed page, with `None` for a failed request.
  `Driver.Run` takes the per-URL fetch as a function, so the same URL always
  yields the same page.
- BeautifulSoup parsing is left out. The index page is the list of anchors of
  its `related_links` table. A detail page is the list of its data tables,
  each a list of `Header` and `Data` rows. Cell texts are given as the strings
  `get_text(strip=True)` returns.
- Discovery.NameOf: an anchor's text is modelled as one string trimmed with
  `str.strip()`. `get_text(strip=True)` strips every text node and joins
  them, so an anchor with several text nodes would lose the inner white
  space. The model does not show that.
- CSV writing (`save_to_csv`), `time.sleep`, and every `print` are I/O and
  timing. `Driver.Run` reports what would be saved.
- The `float()` conversions are left out; the model returns the matched text.
  Every text the number pattern matches is a valid Python float literal, so
  the `ValueError` branches never run.
- `pd.isna` is modelled as a missing value, `None`. Non-string cells, which
  would make `x.replace` raise, are not modelled.
- The pandas pipeline `nettoyage_donnees`, the cleaner's `main`, and
  `model_linéaire.py` are library-bound data-frame and model-fitting code.
- UrlCodec.Unquote returns `None` on malformed UTF-8, where Python's
  `unquote` substitutes U+FFFD. The two agree on every input that quoting
  produces.
- Lone surrogates are left out. A Dafny `char` is a Unicode scalar value, so
  strings holding them, which `quote_plus` rejects, cannot be built.
