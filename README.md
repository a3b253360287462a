# ohlcv_import reconciliation, modelled in Dafny

`ohlcv_import.py` fetches one day of 1-minute candles (klines) for one
trading pair from Binance, asks InfluxDB for the last stored record of the
series, and writes a point for every candle that closes at least a minute
after that record. It also caches the exchange metadata and the raw kline
batch in local JSON files, reused while they are "fresh".

This project models the logic of that script and proves its properties:

- `timestamps.dfy` (module `Timestamps`): instants as integer epoch
  milliseconds, the sentinel reference 2008-01-09T00:00:50Z
  (1199836850 s), the whole-second difference used by the write test
  (`timedelta.seconds + days * 86400`, i.e. the floor of the exact
  difference) and the `int(ms / 1000)` truncation used for entry times.
- `measurement_id.dfy` (module `MeasurementId`): the identity string
  `symbol@exchange_domain:open_time,close_time` whose SHA-1 digest becomes
  the `measurementId` tag, Python's `str` of an integer, and a decoder that
  reads the string back, proving that the string determines its four
  components when the symbol holds no `@`.
- `reconciler.dfy` (module `Reconciler`): the candle, write-entry and tag
  records, and `push_data`'s two loops as methods: `FindLastEntryTime`
  (the last row the store query yields, or the sentinel) and `PushData`
  (the scan that appends entries and counts skipped candles). Both are
  proved against recursive specification functions (`Reconcile`, `Skipped`,
  `AcceptedIndices`), about which the lemmas state the write test's exact
  boundary, the count identity, order preservation, independence of the
  candles from one another, and the content of every entry.
- `cache.dfy` (module `CacheGate`): `is_data_cached` as written, the
  freshness test it evidently means, and the `{symbol}` substitution that
  names the historical cache file.
- `wrappers.dfy` (module `Wrappers`): the `Option` type.

Behaviour kept from the code as it is written:

- Every candle is compared with the same reference; the reference is not
  advanced after a write, so two candles less than a minute apart can both
  be written (`CandlesUnderAMinuteApartBothWritten`).
- The entry's field `v` holds the close price and `c` holds the volume.
- The measurement name is the configured `DEFAULT_SYMBOL`, not the `symbol`
  argument, while the identity string uses the `symbol` argument.
- The store query reads the hard-coded series `ADAEUR`; the tag filter on
  its result is computed and discarded, so the reference time does not
  depend on the environment or exchange. The model takes the query's row
  times as a sequence.
- `get_historical` refetches whenever `is_data_cached` is false, so the
  historical fetch is gated by freshness, not only by the file's existence.
- The SHA-1 digest is a parameter (`Batch.sha1`), and so is the host name.

## Model

| member | source | states |
|---|---|---|
| `Timestamps.ElapsedSeconds` | ohlcv_import.py:67 | the `diff` of a candle is the floor of the exact difference in seconds: `s * 1000 <= close - last < s * 1000 + 1000`, also for closes before the reference |
| `Timestamps.TruncSeconds` | ohlcv_import.py:77-88 | `int(ms / 1000)` truncates toward zero: for non-negative ms it is the largest whole second not after the instant, for negative ms the smallest not before it |
| `Reconciler.FindLastEntryTime` | ohlcv_import.py:51-54 | the reference is the sentinel when the query yields no row and otherwise the time of the last row iterated |
| `Reconciler.PushData` | ohlcv_import.py:56-95 | the loop's entries are exactly `Reconcile` of the candles against the reference, its `skipped` counter is `Skipped`, and entries plus skipped equal the number of candles |
| `Reconciler.AcceptsExactly` | ohlcv_import.py:67-68 | a candle is written iff it closes at least 60000 ms after the reference; a diff of 59 s is skipped, 60 s is written, a close at or before the reference is skipped |
| `Reconciler.ReconcileCount` | ohlcv_import.py:57-95 | every candle falls in exactly one branch: written entries plus skipped candles equal the input length, and there is one entry per accepted position |
| `Reconciler.AcceptedIndicesExact` | ohlcv_import.py:60-95 | the written positions are strictly increasing, in range, pass the test, and include every position that passes it |
| `Reconciler.ReconcileByIndex` | ohlcv_import.py:60-91 | the k-th entry is built from the candle at the k-th accepted position, so entries come in input order |
| `Reconciler.ReconcileAppend` | ohlcv_import.py:51-95 | the reference is fixed during the scan, so reconciling `xs + ys` writes the entries of `xs` then those of `ys`, and the skipped counts add up |
| `Reconciler.ReconcileSingle` | ohlcv_import.py:68-95 | a single candle yields its entry when it passes the test and is counted as skipped otherwise |
| `Reconciler.EntryFields` | ohlcv_import.py:69-90 | each written entry has the configured series name, the environment, exchange, host and timezone tags, `exchangeTime` the truncated server time, `time == ct ==` the truncated close time, `ot` the truncated open time, o/h/l as fetched, `v` the close price, `c` the volume, and `measurementId` the digest of the candle's identity string |
| `Reconciler.EmptyStoreAcceptsAll` | ohlcv_import.py:51-68 | with no stored row the sentinel is the reference, so candles closing a minute or more after it are all written, in order, and none is skipped |
| `Reconciler.LaterReferenceWritesFewer` | ohlcv_import.py:67-68 | a later reference skips at least as many candles and writes no more entries |
| `Reconciler.CandlesUnderAMinuteApartBothWritten` | ohlcv_import.py:60-91 | candles are not compared with one another: two closing one second apart are both written when both are a minute past the reference |
| `Reconciler.NewYearScenario` | ohlcv_import.py:60-95 | reference 2023-01-01T00:00:00Z and closes 30 s, 65 s and 130 s later: the second and third candles are written, one is skipped |
| `MeasurementId.IntToString` | ohlcv_import.py:63-64 | `str` of an integer is non-empty and made only of digits and '-', so it never contains the separators ',' ':' or '@' |
| `MeasurementId.ParseIntToString` | ohlcv_import.py:63-64 | the rendered open and close times read back to the same integers |
| `MeasurementId.DecodePreImage` | ohlcv_import.py:62-64 | decoding the identity string of a key whose symbol has no '@' gives back symbol, domain, open time and close time |
| `MeasurementId.PreImageInjective` | ohlcv_import.py:62-66 | two keys with '@'-free symbols and the same identity string are the same key, so distinct candles get distinct digest inputs |
| `MeasurementId.SymbolWithAtSignCollides` | ohlcv_import.py:62-64 | a symbol containing '@' lets two different keys share an identity string |
| `CacheGate.SecondsWithinDay` | ohlcv_import.py:151 | `timedelta.seconds` of an age is in [0, 86400) and differs from the age by whole days |
| `CacheGate.IsDataCachedExactly` | ohlcv_import.py:145-151 | a missing file is never cached; a present file is cached iff its age modulo one day is at most 60 times the threshold in seconds |
| `CacheGate.NewFileIsCached` | ohlcv_import.py:151 | a present file of age zero is cached for any non-negative threshold |
| `CacheGate.IsDataCachedRepeatsDaily` | ohlcv_import.py:151 | adding one day to a file's age does not change the decision |
| `CacheGate.DayOldFileIsCached` | ohlcv_import.py:148-151 | with the default one-minute threshold a file exactly one day old is reported cached, while the whole-age test calls it stale |
| `CacheGate.IsFreshExactly` | ohlcv_import.py:151 | the corrected test: a present file is fresh iff its whole age is at most 60 times the threshold in seconds |
| `CacheGate.IsFreshAntitone` | ohlcv_import.py:151 | under the corrected test an older file is never fresher than a younger one |
| `CacheGate.CachedAgreesWithFreshWithinADay` | ohlcv_import.py:148-151 | for ages under one day the code's decision and the corrected test agree |
| `CacheGate.ReplaceAllCopiesPrefix` | ohlcv_import.py:127-128 | `str.replace` copies unchanged any prefix in which no occurrence of the pattern can start |
| `CacheGate.TemplateWithoutPlaceholder` | ohlcv_import.py:127-128 | a template without `{` names the same file whatever the symbol |
| `CacheGate.PlaceholderReplaced` | ohlcv_import.py:127-128 | a `{symbol}` with no `{` before it becomes the symbol, and the rest of the template is replaced the same way |
| `CacheGate.DefaultHistoricalFileName` | ohlcv_import.py:126-128 | with the default template the file name is `historical_file_<symbol>.json` |

## Findings

| source | as written | input that shows it | evidently intended | confidence | as-written member | corrected member |
|---|---|---|---|---|---|---|
| ohlcv_import.py:151 | the age in minutes is `(today - createDate).seconds / 60`, and `seconds` drops whole days | a cache file created exactly 86400 s ago, threshold 1 minute: reported as cached although 1440 minutes old | compare the whole age in whole seconds, `seconds + days * 86400`, as `push_data` does at line 67 | medium, not executed | `CacheGate.DayOldFileIsCached` (on `CacheGate.IsDataCached`) | `CacheGate.IsFreshExactly` (on `CacheGate.IsFresh`) |

The metadata and historical fetchers that consume the cache decision are
left out (below), so no other part of the model depends on either test.

## Left out

- Binance `Client` calls (`get_exchange_info`, `get_historical_klines_generator` in `get_historical` and `get_book`): network I/O through a library that is not part of this model.
- InfluxDB connection, query, `write_points` and `close`, and the `_tmp.json` audit file: database and file I/O. The query result is modelled only as the sequence of row times it yields; whether `write_points` is true changes only what is printed or sent.
- JSON dump and load of the cache files, `get_exchange_info`, `main`, `print_exchage_info`: file I/O, wiring and console output. The cache decision they use is modelled in `CacheGate`.
- SHA-1 hex digest and `socket.gethostname`: foreign calls, passed in as `Batch.sha1` and `Batch.hostname`.
- pytz localisation and `isoformat` rendering: times are epoch milliseconds or whole epoch seconds, and their rendering as strings is abstract.
- `float(...)` of prices and volumes: floating point; prices and volumes are opaque `Decimal` values carried through unchanged.
- Float rounding in `Close_time / 1000` and in `seconds / 60`: the model computes with exact integers and reals, which agree with the floats for realistic epoch values.
- Sub-millisecond precision of the stored record's time: the reference is taken in whole milliseconds.
- Kline columns after `Close_time` (quote volume, trade count, taker volumes): carried by the source but never read by `push_data`.
- Configuration from the environment: `DEFAULT_SYMBOL` is the field `Batch.defaultSymbol`, and `FILE_CACHE_MAX_TIME_MIN` is an integer threshold; a value supplied through the environment would be a string, which Python 3 refuses to compare with the float age, and that failure is not modelled.
- `is_data_cached`'s diagnostic print and the use of `os.path.getctime`: the file's existence and the difference `datetime.now() - datetime.fromtimestamp(getctime)` in whole seconds are parameters. Both are naive local wall-clock times, so across a daylight-saving change that difference is off by the shift and can be negative; on POSIX `getctime` is the status-change time, not the creation time.
- Two exception paths: the `KeyError` raised at line 55 for a stored row without `measurementId`, and `datetime.fromtimestamp` raising for instants outside datetime's range (lines 67 and 77-88). The model's unbounded integers accept every instant, and a stored row is only its time.
