# FII positioning dashboard — verified model of its data logic

The program is a small Flask dashboard that stores one record per calendar
date of the futures open interest held by foreign institutional investors
(long contracts, short contracts, their difference and the long share in
percent) and serves the newest 30 records as JSON for a chart.

This Dafny project models the logic under the web and ORM plumbing:

- `Dates`: Python's `datetime.date` (a valid proleptic-Gregorian date), its
  chronological order, and `strftime('%Y-%m-%d')`. The order compares a
  rank number of each date, and it is proved equal to the comparison of
  (year, month, day) in turn. `ParseDate` is added as the
  inverse of that rendering, so that the rendering can be proved injective and
  order-preserving.
- `Positions`: the `FiiPosition` row, the ratio `long / (long + short) * 100`
  and `to_dict`.
- `Ingestion`: `update_fii_data` as a method of a `FiiStore` object whose
  `rows` field is the table, a map from date to row. The specification
  function `Ingest` gives the new table and how the call ended. "Today" and
  the fetched counts are parameters.
- `History`: `api_data`. `QueryNewest` is the `ORDER BY date DESC LIMIT 30`
  query. `ToDicts` is the list comprehension, `ReverseInPlace` is
  `list.reverse()` on an array, and `ApiData` assembles `history` and
  `latest`. `HistoryRows` says which rows `history` shows, and the lemmas
  below it state what they are.
- `Wrappers`: `Option` and `Min`.

Behaviour of the code that the model keeps as written:

- The code does not guard the zero denominator. When `long + short == 0`,
  `ZeroDivisionError` is raised before anything is added to the session, so
  nothing is committed. The model returns `DivisionByZero` and leaves the
  table unchanged.
- The code does not check that counts are non-negative. The ratio's `[0, 100]`
  bound is proved only for non-negative counts.
- The code does not catch a unique-constraint violation on insert.
- The stored `long_ratio` is not rounded. Only `to_dict` rounds it.

Python's `None`/exception paths become values: `latest` is `Option.None`
where the program sends `{}`.

## Model

| member | source | states |
|---|---|---|
| `Dates.BeforeIsLexicographic` | app.py:92 | date order, defined through a rank, is exactly Python's order on (year, month, day) |
| `Dates.BeforeIsStrictTotalOrder` | app.py:92 | date order, by which rows are sorted, is irreflexive, asymmetric, transitive and total |
| `Dates.FormatDate` | app.py:28 | the rendered date is 10 characters: 4 digits, `-`, 2 digits, `-`, 2 digits |
| `Dates.FormatThenParse` | app.py:28 | reading back a rendered date gives the same date |
| `Dates.ParseThenFormat` | app.py:28 | any string that reads as a date is exactly that date's rendering |
| `Dates.FormatDateInjective` | app.py:28 | two dates render to the same string if and only if they are equal |
| `Dates.FormatDateOrder` | app.py:28 | rendered dates compare as strings exactly as the dates compare chronologically, both directions |
| `Positions.LongRatio` | app.py:59-60 | the ratio times the total equals long times 100; it lies in [0, 100] when both counts are non-negative |
| `Positions.ToDict` | app.py:26-33 | the date string is 10 characters and reads back as the row's date; the four numeric fields are copied unchanged |
| `Positions.ToDictInjective` | app.py:26-33 | rows with different dates render to different dictionaries; for consistent rows, equal dictionaries mean equal rows |
| `Ingestion.Ingest` | app.py:36-71 | today already stored: table unchanged, early return; zero total: table unchanged, division error; otherwise exactly the key `today` is added, every existing row is unchanged, and the new row holds today, the given counts, `net = long - short` and `ratio * total = long * 100` |
| `Ingestion.KeyedByDate` | app.py:20 | each stored row is filed under its own date, so no two rows share a date |
| `Ingestion.FiiStore.constructor` | app.py:18-24 | a new table is empty and satisfies the store invariant |
| `Ingestion.FiiStore.UpdateFiiData` | app.py:36-72 | the new table and the outcome are those `Ingest` gives for the old table; the store invariant is kept |
| `Ingestion.IngestPreservesInvariant` | app.py:56-69 | rows stay filed under their own date, with `net` and `ratio` agreeing with the counts |
| `Ingestion.IngestIdempotent` | app.py:45-48 | after a call that did not fail, a second call the same day, with any counts, returns early and changes nothing |
| `Ingestion.IngestTwiceIsOnce` | app.py:45-71 | two identical calls leave the same table as one |
| `Ingestion.ExactlyOneRowForToday` | app.py:45-71 | after a call that did not fail, exactly one stored row carries today's date |
| `Ingestion.PlaceholderCounts` | app.py:52-60 | with the placeholder counts 190000/180000 the new row has net 10000 and a ratio in [51.35, 51.36) |
| `History.SortedDescending` | app.py:92 | the newest-first listing holds each stored date once, in strictly descending order |
| `History.DescendingUnique` | app.py:92 | that listing is determined by the set of dates alone |
| `History.NewestRunIsPrefix` | app.py:92 | a newest-first run of stored dates that every other stored date precedes is the start of the listing |
| `History.QueryNewest` | app.py:92 | the query returns the rows of the first `min(limit, n)` dates of the newest-first listing |
| `History.NewestKeysFacts` | app.py:92 | the queried dates are `min(limit, n)` stored dates, strictly descending, and every other stored date is older than all of them |
| `History.ToDicts` | app.py:95 | the rendered list has one dictionary per row, in the same order, each the `to_dict` of that row |
| `History.ReverseInPlace` | app.py:96 | the array afterwards holds its old contents in reverse order |
| `History.ApiData` | app.py:89-99 | `history` is the `to_dict` rendering of `HistoryRows`, of length `min(30, n)`; `latest` is the last element of `history`, and it is absent if and only if the table is empty |
| `History.HistoryFromStore` | app.py:92-96 | `history` has `min(30, n)` rows, each exactly the row stored under its date |
| `History.HistoryAscending` | app.py:92-96 | `history` is strictly ascending by date |
| `History.HistoryHoldsNewest` | app.py:92-96 | every stored date missing from `history` is older than every date in it |
| `History.HistoryHoldsAllWhenFew` | app.py:92-96 | with at most 30 rows stored, every stored row appears in `history` |
| `History.LatestIsNewest` | app.py:99 | an empty table gives an empty `history`; otherwise its last row is the stored row with the newest date |
| `History.HistoryDateStringsAscending` | app.py:95-96 | the rendered `date` strings of `history` are strictly ascending as strings |

## Left out

- Flask setup, the two routes, `render_template` and `jsonify`. They are HTTP plumbing. `ApiData` returns the two values that `jsonify` would send.
- SQLAlchemy configuration, `db.create_all`, and `session.add`/`commit`. The table is the `rows` map of `FiiStore`. `ApiData` and `QueryNewest` read a snapshot of that map.
- The surrogate `id` primary key. `to_dict` never shows it, and no operation reads it.
- `datetime.now()`. `today` is a parameter of `UpdateFiiData`.
- The placeholder counts and the commented-out upstream fetch. The counts are parameters. `PlaceholderCounts` covers the values the program uses now.
- SQLite's 64-bit integer column range. Counts are unbounded integers, as in Python.
- `print` logging and the unused `pandas` import.
- Two concurrent page loads racing on the existence check. There is no concurrency in the model.
- Positions.LongRatio: the ratio is an exact real, not an IEEE double. The float result of `/` and `*` is not modelled.
- Positions.ToDict: copies `long_ratio` exactly and does not model `round(..., 2)`, which is floating-point behaviour.
- Dates.FormatDate: always pads the year to four digits. For years below 1000, whether `%Y` pads depends on the platform's C library.
