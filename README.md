# Baseball card prices: a Dafny model of the scraper's rules

`player_to_price.py` builds a table of sports-card auction sales for players
active between 1995 and 2010. Around its web plumbing (a headless browser,
HTTP fetches, HTML parsing, CSV files) sit four rules. This project models
them in Dafny and proves what they promise.

1. **Roster filter** (`get_names`, module `Roster`). The first row is dropped.
   Years are coerced to numbers, or to missing. Rows are grouped by name, or by
   (name, position) when the second column is `position` (the batting schema).
   A row is kept when its group's first year is at most 2010 and its last year
   at least 1995. The distinct names of the kept rows are returned.
2. **Link selection** (the href scan of `get_price_links`, module `Links`). The
   name is lower-cased and its spaces become hyphens. Hrefs are scanned in
   document order. Those without `/auctionprices/baseball-cards` are skipped.
   A marker href containing the name is kept, prefixed with
   `https://www.psacard.com`. The first marker href without the name ends the
   scan. Duplicates are removed.
3. **Field extraction** (`price_info`, module `Extract`). Every field list is read
   from the fragments of its own class with Python `split`/`strip`/`replace`.
   The image, grade/qualifier and lot loops are methods with loop invariants.
   The list comprehensions are functions. The IndexError a split raises on a
   fragment without its marker is an explicit `Crash` result.
4. **Aggregation** (`aggregator`, module `Aggregate`). The roster filter is
   re-applied, grouped by name only. `lot_url[53:57]` is parsed as the release
   year. Sales below the smallest first year of the roster are dropped. The rest
   is inner-joined on name. Rows whose release year precedes the player's first
   year, and rows without a price, are dropped.

`Wrappers` holds `Option` (pandas' NaN) and `Result` (an exception). `Text`
models the Python string operations, with lemmas about them. `Seqs` holds
duplicate removal.

Line 198 of `aggregator` reads the statistics with `header=None` and no column
names, so the `"year"` and `"name"` lookups on lines 203-204 would fail with a
KeyError as written. The model follows the evident intent: the statistics rows
are typed records with a name, a position and a year, as in `get_names`.

## Model

| member | source | states |
|---|---|---|
| `Text.IndexOf` | player_to_price.py:110 | the index where `split` cuts: an occurrence of the separator with none before it, or none when there is no occurrence |
| `Text.Contains` | player_to_price.py:107 | Python's `in`: true exactly when the text occurs at some index |
| `Text.SplitParts` | player_to_price.py:110 | `split(sep)[0]` is the part before the first occurrence of `sep`: a prefix free of `sep`, followed by `sep` unless it is the whole string; `split(sep)[1]` exists exactly when `sep` occurs, and the string is the first part, `sep` and the rest joined |
| `Text.SplitSecond` | player_to_price.py:110 | `s.split(sep)[1]` exists exactly when `sep` occurs in `s` |
| `Text.BeforeBefore` | player_to_price.py:121 | splitting at `sep` and then at a one-character stop equals splitting at the stop alone, when the stop occurs no later than `sep` |
| `Text.BeforeSepBeginningWithStop` | player_to_price.py:143 | for a `sep` beginning with `<` (`</span>`, `<strong>`), `.split(sep)[1].split("<")[0]` is the text up to the next `<` |
| `Text.StripSet` | player_to_price.py:112 | `strip(chars)` returns a slice of the input; everything cut away is in `chars`; the result neither begins nor ends with one of them |
| `Text.Strip` | player_to_price.py:121 | `strip()` gives a slice whose ends are not whitespace (every character `str.isspace` accepts), with only whitespace cut away around it |
| `Text.RemoveAll` | player_to_price.py:112-113 | `replace(",", "")` leaves no comma, keeps the count of every other character, and leaves a text without commas unchanged |
| `Text.RemoveAllAppend` | player_to_price.py:112-113 | removing commas from a concatenation removes them from each part, so the kept characters stay in order |
| `Text.LowerChar` | player_to_price.py:77 | `lower()` on a character, for ASCII letters only: an upper-case ASCII letter becomes its lower case, every other character is unchanged |
| `Text.NormaliseName` | player_to_price.py:77 | the normalised name has the input's length, no space and no upper-case letter; each space became `-` and each letter its lower case |
| `Text.ParseNumber` | player_to_price.py:44 | a cell becomes a number exactly when it is a non-empty run of digits; the number is below 10 to the power of its length |
| `Text.Slice` | player_to_price.py:209 | Python slicing with clamped bounds: at most `hi - lo` characters, the exact slice when the string is long enough |
| `Text.FourDigits` | player_to_price.py:44 | a four-digit year cell parses to its decimal value |
| `Seqs.Distinct` | player_to_price.py:85 | the result has no duplicates and holds exactly the input's elements |
| `Roster.Year` | player_to_price.py:44 | with year cells limited to plain digit runs: a year cell becomes a number exactly when it is a run of digits, and never a negative one |
| `Roster.GroupYears` | player_to_price.py:46-48 | the numeric years of a row's group are exactly the numeric years of the rows with the same name (and position) |
| `Roster.Min` | player_to_price.py:49 | `transform('min')`: an element of the group's years, no larger than any |
| `Roster.Max` | player_to_price.py:50 | `transform('max')`: an element of the group's years, no smaller than any |
| `Roster.InSpan` | player_to_price.py:49-52 | a row passes the filter only if its group key is complete and its group has a numeric year |
| `Roster.Kept` | player_to_price.py:52 | the kept rows are exactly the rows whose group passes the min/max filter |
| `Roster.Names` | player_to_price.py:53 | the name column holds exactly the names of the rows |
| `Roster.GetNames` | player_to_price.py:42-55 | fails exactly on a table with no row to drop; otherwise the names are distinct (which names, and the grouping by (name, position) when the second column is `position`, by name otherwise, are stated by `GetNamesCorrect`) |
| `Roster.InSpanIff` | player_to_price.py:49-52 | the min/max filter keeps a row exactly when its group has a numeric year at most 2010 and one at least 1995; a group without numeric years never passes |
| `Roster.GetNamesCorrect` | player_to_price.py:43-53 | a name is returned, once, exactly when one of its groups has a year at most 2010 and a year at least 1995; groups are (name, position) when the second column is `position`, names otherwise |
| `Roster.GetNamesOrderFree` | player_to_price.py:43-53 | reordering the data rows after the dropped first row leaves the set of names unchanged |
| `Roster.PositionGroupsWithinNameGroups` | player_to_price.py:45-48 | a name passing under (name, position) grouping also passes under name grouping |
| `Roster.SpanningCareerReturned` | player_to_price.py:44-53 | seasons 1994, 1996 and 2011 qualify a player |
| `Roster.EarlyCareerExcluded` | player_to_price.py:44-53 | seasons 1990 and 1992 do not qualify a player |
| `Roster.AnyPositionSuffices` | player_to_price.py:45-53 | under the batting schema, one position spanning the window qualifies the name though another position does not |
| `Links.HrefCases` | player_to_price.py:80-84 | every href is in exactly one case: accepted (marker and name), ending the scan (marker without name), or skipped (no marker) |
| `Links.StopIndex` | player_to_price.py:79-84 | the scan ends at the first marker href lacking the name, or at the end |
| `Links.SelectedContains` | player_to_price.py:80-82 | a selected link contains the marker and the normalised name |
| `Links.Scan` | player_to_price.py:79-84 | the accepted links are exactly the base-prefixed hrefs that hold the marker and the name and come before the stop |
| `Links.GetPriceLinks` | player_to_price.py:77-85 | the returned links have no duplicates; they are exactly the base-prefixed hrefs with marker and normalised name before the first marker href without the name; each contains both |
| `Extract.HrefTarget` | player_to_price.py:106-110 | Missing exactly when `href` is absent; IndexError exactly when `href` occurs but `href="` does not; a link holds no `"` |
| `Extract.HrefTargetBetween` | player_to_price.py:110 | the link is the text between the first `href="` and the next `"`, when that quote comes before any second `href="` |
| `Extract.HrefTargetStopsAtSecondHref` | player_to_price.py:110 | with a second `href="` before the quote, the link stops at it |
| `Extract.GradeOf` | player_to_price.py:121 | the grade exists exactly when `</span>` occurs (IndexError otherwise) |
| `Extract.GradeBetween` | player_to_price.py:121 | the grade is the trimmed text between the first `</span>` and the next `<`, and holds no `<` |
| `Extract.QualifierOf` | player_to_price.py:122-125 | the qualifier is present exactly when `<strong>` occurs, NaN otherwise |
| `Extract.QualifierBetween` | player_to_price.py:123 | the qualifier is the trimmed text between the first `<strong>` and the next `<` |
| `Extract.CertOf` | player_to_price.py:143 | the certification exists exactly when `</span>` occurs |
| `Extract.CertBetween` | player_to_price.py:143 | the certification is the untrimmed text between the first `</span>` and the next `<` |
| `Extract.TagText` | player_to_price.py:121 | the text after a marker up to the next `<` holds no `<` |
| `Extract.PriceText` | player_to_price.py:112-113 | the text given to `float()` has no comma and otherwise the characters of the `$`-stripped text; a stripped text without commas is passed on unchanged |
| `Extract.PriceTextDropsComma` | player_to_price.py:112-113 | a comma in the stripped text is dropped and the text on each side of it stays in order |
| `Extract.StripOneDollar` | player_to_price.py:112 | `strip("$")` removes a single leading dollar sign when no other one stands at either end |
| `Extract.PriceTextThousands` | player_to_price.py:112-113 | a dollar amount with a thousands separator (`$1,234`) becomes its digits in order (`1234`) |
| `Extract.PriceTextEnds` | player_to_price.py:112 | the price text neither begins nor ends with `$`, unless a comma shielded a `$` at that end |
| `Extract.PriceTextCommaShield` | player_to_price.py:112-113 | `$,$5` becomes `$5` |
| `Extract.Prices` | player_to_price.py:112-113 | one comma-free price text per price fragment: entry i is the price text of fragment i |
| `Extract.Certs` | player_to_price.py:143-144 | fails exactly when a cert fragment lacks `</span>`; otherwise one certification per fragment, in order |
| `Extract.WithBase` | player_to_price.py:134 | a missing link stays missing; a present link gets the site base in front |
| `Extract.CollectLinks` | player_to_price.py:103-110 | the image loop (and, with the base prefix, the lot loop at lines 126-134): fails exactly when a fragment's split fails; otherwise one cell per fragment, in order |
| `Extract.CollectGrades` | player_to_price.py:116-125 | fails exactly when a grade fragment lacks `</span>`; otherwise one grade and one qualifier per fragment, in order |
| `Extract.PriceInfo` | player_to_price.py:90-159 | fails exactly when an image, grade, lot or cert fragment fails; otherwise every list has one entry per fragment of its class, and `names` repeats the player's name once per date, not once per price |
| `Aggregate.YearRelease` | player_to_price.py:209-210 | with numbers limited to plain digit runs: the release year is missing exactly when the link has no character past index 52 or a non-digit among characters 53 to 56; for a long enough link it is the four-digit number those characters spell; it is always between 0 and 9999 |
| `Aggregate.RosterOf` | player_to_price.py:203-207 | the roster holds exactly the rows whose name group passes the span filter, each with its group's min and max year |
| `Aggregate.RosterCount` | player_to_price.py:203-207 | the roster holds one entry per occurrence of a qualifying statistics row, so repeated season rows stay repeated |
| `Aggregate.MinFirstYear` | player_to_price.py:211 | the smallest first year of the roster, attained by an entry |
| `Aggregate.AboveFloor` | player_to_price.py:209-211 | a sale survives exactly when its release year is numeric and at or above the floor |
| `Aggregate.AboveFloorCount` | player_to_price.py:209-211 | the floor keeps every occurrence of a surviving sale and none of a dropped one |
| `Aggregate.MatchSales` | player_to_price.py:213 | the merged rows of one roster entry are exactly its pairs with the surviving sales of the same name |
| `Aggregate.MatchSalesCount` | player_to_price.py:213 | one merged row per occurrence of a surviving sale with the entry's name |
| `Aggregate.Merge` | player_to_price.py:213 | the inner join holds exactly the roster/sale pairs with equal names |
| `Aggregate.MergeCount` | player_to_price.py:213 | the inner join emits a pair as many times as its roster entry occurs times its sale occurs, and never a pair with different names |
| `Aggregate.KeepDated` | player_to_price.py:214-215 | keeps exactly the joined rows with `first_year <= year_release` and a price |
| `Aggregate.KeepDatedCount` | player_to_price.py:214-215 | the filters keep every occurrence of a passing row and none of a failing one |
| `Aggregate.KeptRows` | player_to_price.py:209-215 | the rows surviving floor, join and filters are exactly the admissible rows at or above the floor |
| `Aggregate.Aggregate` | player_to_price.py:194-217 | fails exactly on an empty statistics table, a missing lot link, or an empty roster; otherwise every row is a qualifying player joined to their sale, with a numeric release year, at or above the floor, not before the first year, and with a price, and every such pair is present |
| `Aggregate.PipelineCount` | player_to_price.py:209-215 | after floor, merge and filters, a row occurs as often as its statistics row times its sale when admissible, otherwise never, for any floor at or below every first year |
| `Aggregate.AggregateCount` | player_to_price.py:194-217 | the aggregated table has one row for every pair of an occurrence of a statistics row and an occurrence of a sale that are admissible together, and no other row |
| `Aggregate.FloorIsRedundant` | player_to_price.py:211-214 | the global floor removes nothing the per-player `first_year <= year_release` check keeps |
| `Aggregate.ReleaseBeforeDebutExcluded` | player_to_price.py:214 | a 1997 card is not joined to a player whose first year is 1998 |
| `Aggregate.AggregatedPlayerQualifies` | player_to_price.py:204-207 | every aggregated player's career spans the window; first and last year bound all of the player's numeric years |

## Left out

- The browser session in `get_price_links` (lines 70-76): the page's hrefs, in document order, are an input.
- `requests.get`, BeautifulSoup parsing and `find_all` class matching (lines 103-144, 178-179): the fragments of each class are an input, as markup or as `.string` text. A `.string` of `None` (a tag with several children) is not modelled.
- `get_prices` (lines 162-191): fetching, the single retry after `time.sleep(5)`, building each page's DataFrame and `pd.concat`. This is network plumbing with timing. The ValueError that `pd.DataFrame` raises on lists of unequal length is not modelled either.
- `float(...)` on the price text (line 112): floating point. The model stops at the normalised text and does not model the ValueError for non-numeric text. In `Aggregate.Sale` the price is only present or missing.
- Reading and writing CSV files and the `__main__` pipeline (lines 42, 198-200, 220-227). The statistics rows are typed records. The price table carries only the name, price and lot link. Its other columns pass through the merge unchanged.
- Text.ParseNumber: `pd.to_numeric` also accepts signs, decimals, exponents and surrounding whitespace. The model parses plain digit runs only, so such cells become missing.
- Roster.Year: built on `Text.ParseNumber`. A year cell such as "-5" or "1994.0", which `pd.to_numeric` turns into a number on line 44, is missing in the model.
- Aggregate.YearRelease: built on `Text.ParseNumber`. A slice such as "19.5" or "1e10", which `pd.to_numeric` turns into a number on line 210, is missing in the model.
- Text.LowerChar: `str.lower` is modelled for ASCII letters only. Other upper-case letters, such as "É", are left unchanged, whereas Python lowers them.
- Text.NormaliseName: built on `Text.LowerChar`, so it lower-cases ASCII letters only.
- Statistics rows with a missing name cell are not modelled: `StatRow.name` is always a string. pandas' `groupby` drops rows whose key is missing (lines 46-48, 204), so such a row would never qualify.
- Seqs.Distinct: `list(set(...))` has no defined order. The model keeps first occurrences in order, and its contract states only the elements and the absence of duplicates.
- Extract.PriceTextEnds: weaker than "the price text never begins or ends with `$`". That claim fails when a comma sits between dollar signs at an end (`$,$5` gives `$5`), so the lemma assumes the stripped text has no comma at either end.
- Extract.HrefTargetBetween: weaker than "the link is the text between `href="` and the next quote". The double split stops at a second `href="` that comes before the quote, so the lemma assumes the quote comes first.
- Aggregate.Aggregate: applying `lot_url[53:57]` row-wise to an empty price table is not modelled. The model returns no rows there.
