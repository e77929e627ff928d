# Exchange-rate DAG: ingestion and latest-rate cache

This project models the two tasks of the `rates` Airflow DAG (`dags/rates.py`):

- **`get_rates`** reads the provider's parsed response. It takes one
  `valid_until` from the top-level `timestamp`, then loops over
  `resp['rates'].items()`. For each item it coerces the rate with `float()`,
  normalises the code with `upper().strip()`, drops codes outside the
  172-entry `valid_pairs` tuple and negative rates, and appends a row
  `(pair, valid_until, rate)` to the `rates` table for everything else.
- **`cache_latest_rates`** runs
  `SELECT DISTINCT ON (pair) pair, rate FROM rates ORDER BY pair, valid_until DESC`.
  It writes every returned `(pair, rate)` into Redis with `SET pair rate`.

The Postgres table is `Rates.RatesTable`, a class whose `rows: seq<Row>` field
only grows. The Redis store is `Rates.Cache`, a class whose
`entries: map<string, real>` field the publisher overwrites key by key. Both
tasks are methods with loops, `Ingest.GetRates` and
`Publish.CacheLatestRates`. Each is proved against specification functions:

- `Ingest.Ingested` gives the rows one response yields.
- `Publish.IsLatestRates` says what the query may return.
- `Publish.Published` gives the cache after a sequence of `SET`s.

The lemmas beside each method prove what the tasks promise about those
functions.

Modules:

- `Wrappers`: `Option`, used for Python operations that may raise.
- `PyStr`: `str.upper()`, `str.lstrip()`, `str.rstrip()` and `str.strip()`
  on ASCII text. Whitespace is the set of characters Python's `isspace()`
  accepts in that range.
- `Rates`: rows, query records, the table and the cache.
- `Ingest`: the raw JSON values, `float()` coercion, `valid_pairs`, the
  per-item filter and `get_rates`.
- `Publish`: the meaning of the `DISTINCT ON` query, a one-pass realisation
  of it, the `SET` loop and its properties.
- `Scenarios`: concrete responses and tables worked through the model.

Python's `float()` is modelled on the value `json.loads` gives the loop:

| JSON value | result |
|---|---|
| a number | its value |
| `true` / `false` | 1.0 / 0.0 |
| `null`, an array or an object | raises |
| a string | an abstract `FloatParser`: `string -> Option<real>`, where `None` stands for `ValueError` |

The table of supported pairs is `Ingest.ValidPairs`, in the source's order.
It is written as nine named blocks so that each block can be unfolded on its
own. The general functions and lemmas take the table as a parameter
`supported`, and `get_rates` passes `ValidPairs`.

The query leaves ties open: among rows of one pair with the same greatest
`valid_until`, the database may return any one. `IsLatestRates` allows every
such choice. `SelectLatest` is one realisation. It scans the table once and
keeps the first row it sees with the greatest `valid_until`, but callers rely
only on `IsLatestRates`.

## Model

| member | source | states |
|---|---|---|
| PyStr.LStripSpec | dags/rates.py:63 | `lstrip()` returns the suffix that starts at the first non-whitespace character. Everything it drops is whitespace. |
| PyStr.RStripSpec | dags/rates.py:63 | `rstrip()` returns the prefix that ends at the last non-whitespace character. Everything it drops is whitespace. |
| PyStr.StripIsInfix | dags/rates.py:63 | `strip()` returns an infix of its argument with only whitespace on either side. The infix neither starts nor ends with whitespace. |
| PyStr.StripIgnoresPadding | dags/rates.py:63 | Whitespace added on either side does not change what `strip()` returns. |
| PyStr.StripUnpadded | dags/rates.py:63 | A string with no whitespace at its ends is its own `strip()`. |
| PyStr.StripKeepsNoLower | dags/rates.py:63 | `strip()` cannot bring in a lower-case letter. |
| PyStr.UpperConcat | dags/rates.py:63 | `upper()` distributes over concatenation. |
| PyStr.UpperKeepsSpace | dags/rates.py:63 | `upper()` leaves whitespace unchanged. |
| PyStr.UpperIdempotent | dags/rates.py:63 | `upper()` applied twice equals `upper()` applied once. Its result has no lower-case letters. |
| PyStr.UpperNoLower | dags/rates.py:63 | A string without lower-case letters is its own `upper()`. |
| Rates.RatesTable.Insert | dags/rates.py:68-70 | `INSERT` appends exactly one row at the end. The earlier rows are unchanged. |
| Rates.Cache.Set | dags/rates.py:82 | `SET` overwrites one key. Every other entry is unchanged. |
| Ingest.GetRates | dags/rates.py:53-70 | A missing timestamp fails the run before anything is stored. So do missing rates. Otherwise the run succeeds and the table becomes its old rows followed by exactly `Ingested` of the items, in item order, all with the one `valid_until`. |
| Ingest.GetRatesTwice | dags/rates.py:49-70 | Running `get_rates` twice on one response gives the same outcome both times. It stores the response's rows twice, with no deduplication. |
| Ingest.ValidPairsAreCodes | dags/rates.py:22-47 | Every supported pair is three upper-case ASCII letters. |
| Ingest.IngestedRowsValid | dags/rates.py:65-70 | Every stored row has a supported pair, a rate that is not negative and the run's `valid_until`. |
| Ingest.IngestedPairsAreCodes | dags/rates.py:22-70 | With the source's table, every stored pair is a three-letter upper-case code. |
| Ingest.AdmitMember | dags/rates.py:58-70 | One item stores a given row exactly when all of these hold: its rate coerces to the row's rate, its code normalises to the row's pair, the pair is supported, the rate is not negative, and the row carries the run's `valid_until`. |
| Ingest.IngestedFromItem | dags/rates.py:55-70 | Every stored row comes from some item that yields it. |
| Ingest.IngestedHasItem | dags/rates.py:55-70 | Every item that yields a row has that row stored. |
| Ingest.IngestedMember | dags/rates.py:55-70 | A row is stored exactly when it carries the run's `valid_until` and some item yields its pair and rate. Both directions are proved. |
| Ingest.IngestedAppendOne | dags/rates.py:55-70 | One more item adds exactly one row when it is accepted, and none otherwise. The rows before it are unchanged. |
| Ingest.IngestedConcat | dags/rates.py:55-70 | Two batches of items store the rows of the first batch, then the rows of the second. |
| Ingest.RejectedItemSkipped | dags/rates.py:55-66 | An item the loop skips stores nothing and stops nothing. Skipped means its rate does not coerce, its code is not supported, or its rate is negative. The items after it are stored as if it were absent. |
| Ingest.IngestedSeesNormalisedKeys | dags/rates.py:63-70 | Only the normalised code of a key matters. Responses whose keys normalise alike store the same rows. |
| Ingest.NormalizeIgnoresCaseAndPadding | dags/rates.py:63 | Case and surrounding whitespace do not change the normalised code: `" usd "` and `"USD"` normalise alike. |
| Ingest.NormalizeIdempotent | dags/rates.py:63 | A normalised code has no lower-case letters and no whitespace at its ends. It normalises to itself. |
| Publish.DistinctVersionsAgree | dags/rates.py:49-50 | A table in which no two rows share a pair and a `valid_until` has no tied rows that disagree on the rate. |
| Publish.KeepLatestGathers | dags/rates.py:76-79 | One scan step keeps the invariant: after it, the scan holds one entry per pair seen, each a latest row of its pair. |
| Publish.GatherNewPair | dags/rates.py:76-79 | A row of a pair not seen before gets its own entry, and the scan invariant holds. |
| Publish.GatherLaterRow | dags/rates.py:76-79 | A row later than its pair's entry replaces the entry, and the scan invariant holds. |
| Publish.GatherEarlierRow | dags/rates.py:76-79 | A row no later than its pair's entry changes nothing, and the scan invariant holds. |
| Publish.GatheredIsLatest | dags/rates.py:76-79 | A finished scan yields a valid result of the `DISTINCT ON` query. |
| Publish.SelectLatest | dags/rates.py:76-81 | Its output is a valid result of the query: one record per pair of the table, each with the rate of a row whose `valid_until` is greatest for that pair. |
| Publish.LatestRatesPairs | dags/rates.py:76-79 | A query result names exactly the pairs of the table. |
| Publish.PublishedKeys | dags/rates.py:81-82 | The `SET` loop adds the records' pairs to the cache's keys and removes none. |
| Publish.PublishedElsewhere | dags/rates.py:81-82 | A key that no record names keeps its old value. |
| Publish.PublishedValue | dags/rates.py:81-82 | With distinct pairs, each record's pair ends up mapped to that record's rate. |
| Publish.PublishedRate | dags/rates.py:76-82 | After publishing a query result, a pair of the table maps to the rate of a latest row of that pair. |
| Publish.PublishedUniqueLatest | dags/rates.py:76-82 | A row strictly later than every other row of its pair is the one whose rate gets published. |
| Publish.PublishedLatest | dags/rates.py:76-82 | Publishing a query result adds the table's pairs to the cache's keys. Each pair maps to the rate of one of its latest rows. Every other key keeps its old value. |
| Publish.CacheLatestRates | dags/rates.py:73-82 | The new cache is the old cache overwritten with some valid query result. Its keys are the old keys plus the table's pairs. Each pair maps to a latest rate. Other keys are untouched, so stale entries remain. |
| Publish.PublishedIdempotent | dags/rates.py:81-82 | Publishing the same records a second time leaves the cache as it was after the first time. |
| Publish.RepublishStable | dags/rates.py:73-82 | Re-running the publisher on an unchanged table leaves the cache identical, whichever valid results the two runs get, provided tied rows agree on the rate. |
| Publish.RepublishKeys | dags/rates.py:81-82 | A second run of the publisher adds no key to the cache. |
| Publish.RepublishKey | dags/rates.py:81-82 | A second run leaves each key's value as it was, given that tied rows agree. |
| Publish.RepublishPair | dags/rates.py:76-82 | Two runs store the same rate for a pair of the table, given that tied rows agree. |
| Publish.RepeatedRowsAgree | dags/rates.py:49-70 | Inserting the rows of one response a second time creates no tied rows that disagree. The repeated rows are copies of rows already in the table. |
| Publish.LatestRatesSameRows | dags/rates.py:76-79 | The query's valid results depend only on which rows the table holds, not on how often each is held. |
| Publish.RerunRepublishStable | dags/rates.py:49-82 | Ingest one response and publish, then ingest the same response again and publish again: the second publish leaves the cache as the first left it. The only condition is that the table after the first ingest has no disagreeing ties. |
| Scenarios.PaddedLowerCode | dags/rates.py:63 | `" usd "` normalises to `"USD"`. |
| Scenarios.UnsupportedCode | dags/rates.py:22-47 | `"XXX"` is not a supported pair. |
| Scenarios.SupportedCodes | dags/rates.py:22-47 | `"USD"` and `"EUR"` are supported pairs. |
| Scenarios.ScenarioCodes | dags/rates.py:63 | The scenario keys normalise to their upper-case codes. |
| Scenarios.MixedAcceptedPart | dags/rates.py:55-70 | A string rate and a number rate with supported codes store two rows, in order. |
| Scenarios.AcceptedLast | dags/rates.py:58-70 | An accepted last item adds exactly its row. |
| Scenarios.SkippedLast | dags/rates.py:55-66 | A skipped last item adds nothing. |
| Scenarios.MixedResponseIn | dags/rates.py:55-70 | The mixed response `{"usd": "1.00", "eur": 0.92, "xxx": 5.0, "jpy": "bad"}` stores `(USD, t, 1.0)` and `(EUR, t, 0.92)` for any table that supports USD and EUR but not XXX. |
| Scenarios.MixedResponse | dags/rates.py:55-70 | The same, with the source's table. |
| Scenarios.PairsOfTwo | dags/rates.py:76-79 | The pairs of a two-row table are the pairs of its two rows. |
| Scenarios.PublishedPairsOfTwo | dags/rates.py:76-82 | Publishing any valid result for a two-row table gives exactly those two rows' pairs as keys. |
| Scenarios.PublishTwoPairs | dags/rates.py:76-82 | Two rows of different pairs publish both rates. |
| Scenarios.MixedResponsePublished | dags/rates.py:76-82 | Publishing the mixed response's rows to an empty cache gives `{USD: 1.0, EUR: 0.92}`. |
| Scenarios.PublishLaterRow | dags/rates.py:76-82 | Of two rows of one pair, the one with the later `valid_until` is published, in either insertion order. |
| Scenarios.LaterRowWins | dags/rates.py:76-82 | Rows `(USD, 1, 1.0)` and `(USD, 2, 1.05)` publish `USD = 1.05`. |
| Scenarios.TieEitherLatest | dags/rates.py:76-79 | Of two rows that tie on pair and `valid_until`, either may be the query's answer. |
| Scenarios.TieLeavesChoiceOpen | dags/rates.py:76-79 | Rows `(USD, 1, 1.0)` and `(USD, 1, 2.0)` admit both answers, and they disagree. |
| Scenarios.CollidingKeysIn | dags/rates.py:55-70 | Keys `"usd"` and `"USD"` in one response store two rows with the same pair and `valid_until`. |
| Scenarios.CollidingKeys | dags/rates.py:55-70 | The same, with the source's table. The rows it stores have tied rates that disagree. |
| Scenarios.RateBoundsIn | dags/rates.py:58-70 | A zero rate is stored. A negative rate is skipped, and so is `null`. |
| Scenarios.RateBounds | dags/rates.py:58-70 | The same, with the source's table. |

## Where the design and the code differ

The design assumes that no two rows share a pair and a `valid_until`, and
that re-running the publisher always leaves the cache as it was. The code
does not ensure either. The `DISTINCT ON` query has no tie-break, so when
tied rows carry different rates, two runs of the publisher may store
different rates (`Scenarios.TieLeavesChoiceOpen`). Such ties arise in two
ways:

- one response holds two keys that normalise to the same code, such as
  `"usd"` and `"USD"`, with different rates (`Scenarios.CollidingKeys`);
- two responses carry the same `timestamp` but different rates for a code.

Running `get_rates` again on the same response does not make such ties. It
repeats every row exactly, so the repeated rows agree with the rows they
tie with (`Publish.RepeatedRowsAgree`). Ingesting a response twice, with a
publish after each ingest, therefore leaves the cache stable whenever the
first ingest left no disagreeing ties (`Publish.RerunRepublishStable`).

The model follows the code:

- re-publishing is proved stable only when tied rows agree on the rate
  (`Publish.RepublishStable`);
- that condition holds whenever the design's no-duplicates assumption holds
  (`Publish.DistinctVersionsAgree`);
- a repeated ingest of one response keeps that condition
  (`Publish.RepeatedRowsAgree`);
- publishing the same records twice is always stable
  (`Publish.PublishedIdempotent`).

## Left out

- The DAG definition, default arguments, schedule and task wiring (`dags/rates.py:85-113`): scheduler configuration, not logic.
- The HTTP request and `json.loads` (`dags/rates.py:13-18`): the parsed response is an input, `Ingest.Response`. An exception there fails the run before the loop, outside the model.
- The Postgres and Redis connections (`dags/rates.py:12`, `dags/rates.py:74-75`): these are external services, so only the table and the map they hold are modelled. A store that fails on a write is not modelled either.
- `datetime.fromtimestamp`: `valid_until` is the integer timestamp. A timestamp that is missing or that `fromtimestamp` refuses is `None`, so the run fails with `MissingTimestamp`. `resp['rates']` that is missing or not a mapping is `None` (`MissingRates`).
- The grammar of numeric strings that `float()` accepts: it is the abstract `FloatParser` parameter.
- IEEE floating point: rates are reals. `float()` also accepts `"nan"`, `"inf"` and `"-0.0"`. NaN passes `rate < 0` unrejected, and so do infinity and negative zero. These values are not modelled.
- `float()` of a very large JSON integer raises `OverflowError`, so the item is skipped. The model coerces every JSON number.
- Order of JSON object keys: the response is a sequence of items in the order `items()` yields them. Duplicate keys are kept, which `json.loads` would collapse to the last one. The colliding-key scenario uses keys that differ in the text but normalise alike.
- `upper()` and `strip()` outside ASCII: Unicode case mapping and Unicode whitespace are not modelled.
- The `ORDER BY pair` of the query's output: `Publish.IsLatestRates` allows the records in any order. Every property of the cache is proved for every order, since the records name distinct pairs.
- Publish.RepublishStable: weaker than "re-running the publisher leaves the cache identical", because it assumes tied rows agree (see above). Re-ingesting the same response keeps that assumption (`Publish.RerunRepublishStable`).
