# Flight tracker pipeline, modelled in Dafny

The dashboard script `streamlit_app.py` fetches a snapshot of aircraft state vectors
from the OpenSky network, appends it to a `flights` table in a local DuckDB file, reads
the 500 most recent rows back, and filters them by origin country, minimum barometric
altitude and an airborne-only switch. This project models that row-level pipeline:

- `schema.dfy` (`Schema`): the seventeen upstream columns in upstream order, plus the
  `timestamp` column the fetcher adds. An upstream value is a `Cell`: null, boolean,
  number, text or list.
- `masks.dfy` (`Masks`): boolean-mask selection (`df[mask]`, `dropna`). `Keep` keeps the
  rows that satisfy a predicate, in order. `Positions` gives the kept positions. The
  lemmas show what a mask keeps, and that masks compose, commute and are idempotent.
- `fetcher.dfy` (`Fetcher`): the normalisation inside `fetch_opensky`. The frame
  constructor pads short rows with nulls up to the widest row. It fails unless that
  width is seventeen. `dropna` on latitude and longitude follows, then one timestamp for
  the whole batch. Any failure gives the empty batch.
- `recency.dfy` (`Recency`): `ORDER BY timestamp DESC LIMIT 500`. A stable sort plus a
  prefix implements it. It is proved against an order-free description of what the
  query may return.
- `store.dfy` (`Store`): the `flights` table as a class with two fields. `created` says
  whether the table exists. `rows` is only ever appended to. Also modelled here: the
  recency read-back, and the fetch button, which stores a batch only when it is not empty.
- `filters.dfy` (`Filters`): the filter block, three masks applied in turn. Comparisons
  with null are false, as in pandas.
- `countries.dfy` (`Countries`): the selector options. They are "All" followed by the
  distinct non-null origin countries, sorted in Python's code-point string order.

Two behaviours of the script are easy to misread:

- Reading back a file that has no `flights` table is not an empty result. Line 45
  queries the table with no guard. `QueryRecent` returns `MissingTable` in that case.
- "All", altitude 0 and airborne-only off do not give the identity. A row with a null
  altitude always fails `baro_altitude >= min_alt`, and so does a negative altitude.
  `DefaultFilterIdentityIff` states exactly when those choices give the identity.

The options after "All" are distinct from each other, not from "All". A country named
"All" would be listed twice, and choosing it switches the country filter off, as in the
code.

## Model

| member | source | states |
|---|---|---|
| Schema.Named | streamlit_app.py:13-19 | the value at position i of a seventeen-value row ends up under the i-th column name |
| Schema.Positional | streamlit_app.py:13-18 | a record read back in column order has seventeen values |
| Schema.PositionalByName | streamlit_app.py:13-18 | position i of a record read back in column order holds its cell under the i-th column name |
| Schema.NamedRoundTrip | streamlit_app.py:13-19 | naming a positional row and reading it back by position gives the row again, and the reverse gives the record again |
| Masks.Keep | streamlit_app.py:57-60 | a mask keeps no more rows than it gets, and every kept row comes from the input and satisfies the mask |
| Masks.Positions | streamlit_app.py:57-60 | the kept positions increase strictly, each holds a row satisfying the mask, and every such position is among them |
| Masks.KeepSelects | streamlit_app.py:20 | the j-th kept row is the input row at the j-th kept position, so a mask or `dropna` keeps the selected rows in their original order |
| Masks.KeepMembership | streamlit_app.py:57-60 | a row survives a mask if and only if it is in the input and satisfies the mask |
| Masks.KeepKeep | streamlit_app.py:55-60 | two masks applied in turn select what the single mask of their conjunction selects |
| Masks.MasksCommute | streamlit_app.py:55-60 | the order of two masks does not change the result |
| Masks.KeepIdempotent | streamlit_app.py:55-60 | applying a mask twice gives what applying it once gives |
| Masks.KeepIsIdentity | streamlit_app.py:58 | a mask returns its input unchanged if and only if every row satisfies it |
| Fetcher.MaxWidth | streamlit_app.py:19 | the column count the frame constructor sees: every row fits in it and some row reaches it |
| Fetcher.Pad | streamlit_app.py:19 | a short row is completed to seventeen values with nulls, and its own values are kept |
| Fetcher.Frame | streamlit_app.py:19 | the snapshot as named records, one per raw row and in order; each record read back by position is its null-padded raw row (`FetchSelectsRows` describes what survives) |
| Fetcher.HasCoordinates | streamlit_app.py:20 | the `dropna` mask: true when latitude and longitude are both non-null (`HasCoordinatesByName`, `PaddedCoordinates`) |
| Fetcher.HasCoordinatesByName | streamlit_app.py:20 | the mask reads exactly the cells under the names "latitude" and "longitude", and holds when neither is null |
| Fetcher.Stamp | streamlit_app.py:21 | adds the `timestamp` column: the rows stay the same and in order, and every one gets the same capture time |
| Fetcher.Normalise | streamlit_app.py:19-21 | naming, `dropna` and stamping of an accepted snapshot: no more rows than the snapshot, each with both coordinates and the capture time (`FetchSelectsRows` gives the exact rows) |
| Fetcher.FrameSnoc | streamlit_app.py:19 | the frame of a snapshot is the frame of all rows but the last, followed by the last row named |
| Fetcher.PaddedCoordinates | streamlit_app.py:19-20 | `dropna` keeps a padded row exactly when the raw row has a non-null sixth and seventh value |
| Fetcher.Fetch | streamlit_app.py:9-25 | every row of a batch has both coordinates and the one capture timestamp. A failed call, a null `states` or rows not seventeen wide give the empty batch. A batch is never larger than the snapshot |
| Fetcher.FetchSelectsRows | streamlit_app.py:19-21 | the batch is exactly the snapshot rows whose padded latitude and longitude are non-null, named and stamped, in upstream order |
| Fetcher.CountLacking | streamlit_app.py:20 | counts, directly on the raw positions 5 and 6, the rows lacking a coordinate; it is at most the number of rows, and `KeptCount` ties it to what `dropna` removes |
| Fetcher.KeptCount | streamlit_app.py:19-20 | the rows kept by `dropna` plus the raw rows lacking a coordinate make up the whole snapshot |
| Fetcher.FetchCount | streamlit_app.py:19-21 | a snapshot that the frame constructor accepts loses exactly the rows that lack a coordinate |
| Recency.Insert | streamlit_app.py:45 | inserting a row adds exactly that row, and the result starts with it or with the old first row |
| Recency.InsertNewestFirst | streamlit_app.py:45 | inserting a row into a newest-first sequence keeps it newest first |
| Recency.SortNewestFirst | streamlit_app.py:45 | the ordering is newest first and a permutation of the table's rows |
| Recency.PrefixIsTop | streamlit_app.py:45 | no row after the first k of a newest-first sequence is newer than one of those k |
| Recency.Recent | streamlit_app.py:45 | the query's result: at most 500 rows, no more than the table has, drawn from the table (as a multiset), newest first (`RecentIsTop` gives the full top-500 property) |
| Recency.RecentIsTop | streamlit_app.py:45 | the query returns min(500, table size) rows drawn from the table, newest first, and no omitted row is newer than a returned one |
| Store.FlightTable.Open | streamlit_app.py:44 | opening the file gives a table that is absent (and empty) or holds the rows persisted earlier |
| Store.FlightTable.Append | streamlit_app.py:28-31 | after a store the table exists and holds the old rows unchanged, followed by exactly the batch |
| Store.FlightTable.QueryRecent | streamlit_app.py:44-45 | the query fails if and only if the table was never created, in which case the file holds no rows, and otherwise returns a top-500 newest-first selection of the table |
| Store.FetchAndStore | streamlit_app.py:37-41 | the table grows by exactly the fetched batch, all stamped with the capture time. An empty batch leaves the table untouched. The rows stored keep both coordinates |
| Filters.CountryIs | streamlit_app.py:57 | `origin_country == country`: holding means the cell under "origin_country" is that text; a null country never matches |
| Filters.AltitudeAtLeast | streamlit_app.py:58 | `baro_altitude >= min_alt`: a null altitude fails, and a numeric one passes exactly when it is at least the minimum |
| Filters.Airborne | streamlit_app.py:60 | `on_ground == False`: holds exactly when the cell under "on_ground" is the boolean false, so a null fails |
| Filters.ApplyFilters | streamlit_app.py:55-60 | the three masks in turn: no more rows than the input, each from the input and meeting all three conditions (`FilterSelects` and `FilterMembership` give the exact rows and order) |
| Filters.FilterIsOneMask | streamlit_app.py:55-60 | the three masks applied in turn select what one mask of the three conditions' conjunction selects |
| Filters.FilterSelects | streamlit_app.py:55-60 | the filtered rows are exactly the input rows meeting all three conditions, taken at strictly increasing positions (a subsequence in input order) |
| Filters.FilterMembership | streamlit_app.py:56-60 | a row is kept if and only if it is in the input, its country is the chosen one (or "All" is chosen), its altitude is non-null and at least the minimum, and it is not on the ground when airborne-only is set |
| Filters.FilterIdempotent | streamlit_app.py:55-60 | filtering the filtered rows again with the same choices changes nothing |
| Filters.FilterOrderIrrelevant | streamlit_app.py:55-60 | running the airborne, altitude and country masks in the reverse order gives the same rows |
| Filters.DefaultFilterIdentityIff | streamlit_app.py:56-60 | with "All", altitude 0 and airborne-only off, the filter is the identity if and only if every row has a non-null, non-negative altitude |
| Filters.NullAltitudeExcluded | streamlit_app.py:58 | a row with a null altitude is dropped from any table, whatever the choices |
| Countries.BeforeIrreflexive | streamlit_app.py:51 | no string sorts before itself |
| Countries.BeforeTransitive | streamlit_app.py:51 | the string order used by `sorted` is transitive |
| Countries.BeforeTotal | streamlit_app.py:51 | of two different strings, one sorts before the other |
| Countries.AscendingIsDistinct | streamlit_app.py:51 | a strictly ascending list has no repeated names |
| Countries.InsertDistinct | streamlit_app.py:51 | adding a name to a strictly ascending list keeps it strictly ascending and adds exactly that name |
| Countries.SortedDistinct | streamlit_app.py:51 | `sorted(unique(...))` is strictly ascending and holds exactly the names of its input |
| Countries.PresentCountries | streamlit_app.py:51 | the country column's `dropna`: the non-null countries in row order, at most one per row (`PresentCountriesMembership` says which) |
| Countries.PresentCountriesMembership | streamlit_app.py:51 | `dropna` on the country column yields a name if and only if some row has it as a non-null origin country |
| Countries.CountryOptions | streamlit_app.py:51 | the selector options: "All" first, then a strictly ascending list (`CountryOptionsSpec` says which names) |
| Countries.CountryOptionsSpec | streamlit_app.py:51 | the options start with "All"; the rest are strictly ascending and distinct, and contain a name if and only if some recent row has that origin country |

## Left out

- The HTTP GET and JSON decoding (streamlit_app.py:11-12) are network I/O. The decoded
  body is a `Payload` parameter: unavailable, `states` null, or an array of positional
  rows. A `NaN` literal in the body is not modelled, since numbers are compared only.
- The five-minute memoisation of `fetch_opensky` (streamlit_app.py:8) comes from
  Streamlit's decorator, not from the script.
- `datetime.utcnow()` (streamlit_app.py:21) is the real clock. The capture time is the
  parameter `now`. Nothing follows about ordering across batches: that depends on the clock.
- DuckDB connections and schema inference by `CREATE TABLE ... LIMIT 0`
  (streamlit_app.py:29-30, 44) are left out. The table holds the rows as stored, with
  no type coercion on insert.
- Cell types outside the schema are not modelled. An altitude counts only as a number,
  `on_ground` only as a boolean, and a country only as text. A cell of another type fails
  the comparison, where pandas would raise or apply Python's mixed-type comparisons.
- Store.FlightTable.QueryRecent: fixes the order among rows with equal timestamps. The sort
  is stable, so such rows keep their table order. SQL leaves that order open.
  `IsTopByTimestamp` states the order-free guarantee that any result satisfies.
- Widgets, rendering and messages are UI (streamlit_app.py:24, 34, 37, 41, 47-53, 62-70).
  That includes the `recent_df.empty` guard and the slider's 0-12000 range. The minimum
  altitude is any integer.
- Storage failures (disk full, locks) are not modelled. `Append` always succeeds.
