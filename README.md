# StormSense sensor state engine — a Dafny model

StormSense is a Raspberry Pi weather station. Its core is the sensor state
engine (`SensorService`): every sample it corrects the raw temperature for
heat from the CPU, derives Fahrenheit, appends `(time, pressure)` to a
rolling three-hour pressure window, classifies the weather trend
(STORMY, RAIN, CHANGE, FAIR, DRY) from the pressure change across that
window, logs the finished reading in a bounded in-memory session log and
forwards it to a SQLite-backed history store (`HistoryStore`). The store
degrades to an inert no-op when its database cannot be opened, prunes rows
older than seven days at most once an hour, and answers time-range queries.

The model has seven modules, one per concern:

- `Wrappers` (`wrappers.dfy`): `Option`, for Python's "float or None".
- `Config` (`config.dfy`): the constants of `config.py`, the two
  enumerations and their integer values and names.
- `Records` (`records.dfy`): a reading and a window sample as value types,
  and the `timestamp > since` filter.
- `BoundedDeque` (`bounded_deque.dfy`): what `deque(maxlen=n).append`
  does, as functions on sequences, and oldest-first eviction.
- `HistoryQuery` (`history_query.dfy`): the store's queries as functions on
  its table: the stable sort by time stamp, `LIMIT`, the newest-rows
  query, and the age cut of a prune.
- `History` (`history_store.dfy`): the store as a `StoreState` value with
  one specification function per operation, the lemmas about them, and
  the `HistoryStore` class proved against those functions.
- `Sensor` (`sensor_service.dfy`): calibration, classification, the status
  report, and the `SensorService` class with `Ingest`, `Status`,
  `GetHistory`, `ResetHistory`, `Close` and the startup seeding loops.

Inputs that the source reads from the outside world are parameters:

- The wall clock of `read()` is `now`.
- The sensor's temperature and pressure are `rawTemp` and `rawPressure`.
- The CPU temperature file is `cpuTemp`.
- The store's own clock is `storeNow`.
- Whether the database opens is `opens`.
- What the database file already holds is `persisted`.
- A `sqlite3.Error` on one insert, query or prune is a `fails` flag. Such a
  call leaves the table unchanged and answers empty or zero.

Modelling assumptions:

- `HistoryStore` as shown defines neither `clear()` nor `get_latest(limit)`,
  although `reset_history` and `_seed_from_store` call both
  (`storm_sense/sensor_service.py:113`, `:129`). Calling them would raise
  `AttributeError`. The model gives them assumed contracts:
  - `Clear` empties the table of a live store.
  - `GetLatest(limit)` returns the newest `limit` rows, oldest first. The
    ordering follows from the caller treating `rows[-1]` as the latest
    reading.
- `config.py` as shown lacks `CPU_HEAT_FACTOR` and `DRY_THRESHOLD`, and its
  `StormLevel` has four other members (CLEAR, WATCH, WARNING, SEVERE). The
  model uses the five levels the engine names, with `CpuHeatFactor = 1.2`
  (the value the station's checks use) and `DryThreshold = 2.0`, which lies
  above the watch threshold.
- Only FAIR = 1 is a fixed integer value. The model takes DRY = 0, FAIR = 1,
  CHANGE = 2, RAIN = 3, STORMY = 4, so a more severe storm has a larger
  value.
- SQL leaves the order of rows with equal time stamps under
  `ORDER BY timestamp` unspecified. The model keeps their insertion order
  (a stable sort).
- The model follows the code in these points:
  - A storage error does not make the store unavailable. The failing call
    is a no-op, and the connection stays live.
  - The in-memory history fallback filters by `timestamp > since` only when
    `since > 0`. Otherwise it returns the whole session log.
  - A negative `LIMIT` means "no limit", as in SQLite.

## Model

| member | source | states |
|---|---|---|
| Config.ConfigConsistent | stormsense-pi/storm_sense/config.py:4-12 | the window holds 10800 / 30 = 360 samples; 0 < 360 <= 2880, so the seeded window fits in the seeded session log; the thresholds are strictly ordered -10 < -6 < -3 < 0, with DRY above the watch threshold; the heat factor is positive |
| Config.ModeValue | stormsense-pi/storm_sense/config.py:21-24 | display modes are 0..2, with TEMPERATURE = 0 and PRESSURE = 1 |
| Config.ModeNameRoundTrip | stormsense-pi/storm_sense/sensor_service.py:93 | the display-mode name the status echoes determines the mode |
| Config.Ordinal | stormsense-pi/tests/test_sensor_service.py:269-270 | a level's stored integer lies in 0..4 and is 1 exactly for FAIR |
| Config.FromOrdinal | stormsense-pi/storm_sense/sensor_service.py:145 | converting a stored integer back succeeds exactly for 0..4 and inverts `Ordinal` |
| Config.OrdinalRoundTrip | stormsense-pi/storm_sense/sensor_service.py:76 | storing a level as its integer and reading it back gives the same level |
| Config.LevelNameRoundTrip | stormsense-pi/storm_sense/sensor_service.py:90 | the status label of a level determines the level |
| Records.SamplesOf | stormsense-pi/storm_sense/sensor_service.py:135-136 | one `(timestamp, pressure)` sample per row, position by position |
| Records.After | stormsense-pi/storm_sense/sensor_service.py:106 | the filter returns only readings of the input with `timestamp > since`, every such reading, and no reading more often than the input holds it |
| Records.AfterOne | stormsense-pi/storm_sense/sensor_service.py:106 | a single reading is kept exactly when its time stamp is after `since` |
| Records.AfterConcat | stormsense-pi/storm_sense/sensor_service.py:106 | the filter distributes over concatenation, so it keeps the matching readings in their session-log order and with their multiplicity |
| Records.AfterKeepsOrder | stormsense-pi/storm_sense/sensor_service.py:106 | filtering time-ordered readings leaves them time-ordered |
| Records.AfterAllLater | stormsense-pi/storm_sense/history_store.py:75 | a bound below every time stamp filters nothing out |
| BoundedDeque.Suffix | stormsense-pi/storm_sense/sensor_service.py:135 | `rows[-n:]` has length `min(len, n)` |
| BoundedDeque.Push | stormsense-pi/storm_sense/sensor_service.py:45-48 | an append keeps the length within the capacity; below capacity it appends; at capacity it drops exactly the oldest entry; the new entry is last |
| BoundedDeque.PushAll | stormsense-pi/storm_sense/sensor_service.py:130-131 | after a run of appends the queue is within capacity and ends with the last element appended |
| BoundedDeque.PushAllIsSuffix | stormsense-pi/storm_sense/sensor_service.py:130-136 | a run of appends keeps exactly the newest `cap` elements of old contents followed by the new ones (oldest-first eviction) |
| BoundedDeque.PushAllFromEmpty | stormsense-pi/storm_sense/sensor_service.py:130-131 | refilling an empty queue with at most `cap` elements yields exactly those elements |
| HistoryQuery.Insert | stormsense-pi/storm_sense/history_store.py:76 | an insertion adds exactly one row to the multiset |
| HistoryQuery.InsertSorted | stormsense-pi/storm_sense/history_store.py:76 | insertion keeps a time-ordered sequence time-ordered |
| HistoryQuery.SortByTime | stormsense-pi/storm_sense/history_store.py:76 | `ORDER BY timestamp` is a permutation of the rows |
| HistoryQuery.SortByTimeSorted | stormsense-pi/storm_sense/history_store.py:76 | the sorted rows are in ascending time order |
| HistoryQuery.SortByTimeOfSorted | stormsense-pi/tests/test_history_store.py:72-79 | rows already in time order come back as inserted |
| HistoryQuery.Take | stormsense-pi/storm_sense/history_store.py:77 | `LIMIT` returns a prefix, all rows when the limit is negative or not smaller, otherwise exactly `limit` rows |
| HistoryQuery.QuerySpec | stormsense-pi/storm_sense/history_store.py:61-80 | a range query returns only table rows with `timestamp > since`, in ascending order, at most `limit` of them, and all of them when there are no more than `limit` |
| HistoryQuery.QueryTakesEarliest | stormsense-pi/tests/test_history_store.py:81-101 | the rows returned are the earliest matching ones: no row left out is earlier than any row returned, and together they are all matching rows |
| HistoryQuery.FallbackAgreesWithQuery | stormsense-pi/storm_sense/sensor_service.py:97-107 | over time-ordered rows and an uncut limit, the store's query equals the in-memory `timestamp > since` filter |
| HistoryQuery.LatestSpec | stormsense-pi/storm_sense/sensor_service.py:129 | assumed `get_latest`: `min(n, limit)` rows, in ascending time order, and no row left out is newer than a row returned |
| HistoryQuery.LatestEndsWithNewest | stormsense-pi/storm_sense/sensor_service.py:138-140 | `get_latest` returns only table rows, and its last row is the newest of the table |
| HistoryQuery.Kept | stormsense-pi/storm_sense/history_store.py:167-170 | a prune keeps exactly the rows with `timestamp >= cutoff` |
| HistoryQuery.Expired | stormsense-pi/storm_sense/history_store.py:167-170 | a prune deletes exactly the rows with `timestamp < cutoff` |
| HistoryQuery.PrunePartition | stormsense-pi/storm_sense/history_store.py:162-175 | kept and deleted rows partition the table, so the rows lost equal the deleted count |
| HistoryQuery.KeptUnchanged | stormsense-pi/tests/test_history_store.py:144-152 | when no row is expired, a prune keeps the table as it is and deletes nothing |
| History.UnavailableIsInert | stormsense-pi/storm_sense/history_store.py:38-115 | on an unavailable store, add, clear and prune change nothing, queries return `[]`, and count and prune return 0 |
| History.AddAppendsOneRow | stormsense-pi/storm_sense/history_store.py:38-57 | a live insert appends exactly that row and count grows by one; a failing insert changes nothing |
| History.PruneIsRateLimited | stormsense-pi/storm_sense/history_store.py:85-94 | within 3600 s of the last attempt, a prune returns 0 and changes nothing; otherwise the attempt time is recorded, available or not |
| History.PruneDeletesExpired | stormsense-pi/storm_sense/history_store.py:162-175 | a live prune keeps exactly the rows at or after `now - maxAge`, and count drops by the number it returns |
| History.PruneKeepsRecent | stormsense-pi/tests/test_history_store.py:144-152 | with no row older than the retention age, a prune changes nothing and returns 0 |
| History.FirstPruneRuns | stormsense-pi/storm_sense/history_store.py:28 | a fresh store has no prune on record, so a first attempt at `now >= 3600` is not skipped |
| History.CloseIsIdempotent | stormsense-pi/storm_sense/history_store.py:107-115 | close makes the store unavailable and keeps its table; a second close changes nothing |
| History.ClearEmpties | stormsense-pi/storm_sense/sensor_service.py:113 | assumed `clear`: a live store ends with no rows and a count of 0 |
| History.AddedAllAppends | stormsense-pi/storm_sense/history_store.py:38-57 | a run of inserts into a live store appends the readings in order |
| History.ReopenKeepsReadings | stormsense-pi/tests/test_history_store.py:210-227 | readings written, closed and reopened from the same file give `count == N`, and a query from time 0 returns all of them in ascending time order |
| History.QueryAllRows | stormsense-pi/storm_sense/history_store.py:61-80 | a query from time 0 with an uncut limit over positive time stamps returns every row in time order |
| History.HistoryStore.constructor | stormsense-pi/storm_sense/history_store.py:119-140 | a store is available exactly when opening succeeds; a failed open leaves no rows; no prune is on record |
| History.HistoryStore.IsAvailable | stormsense-pi/storm_sense/history_store.py:33-36 | the store reports itself available exactly when its connection is live |
| History.HistoryStore.AddReading | stormsense-pi/storm_sense/history_store.py:38-57 | the new state is `Added` of the old one (see AddAppendsOneRow) |
| History.HistoryStore.GetHistory | stormsense-pi/storm_sense/history_store.py:61-83 | the result is `HistoryOf` the state: only table rows after `since`, time-ordered |
| History.HistoryStore.PruneIfDue | stormsense-pi/storm_sense/history_store.py:85-94 | the new state and the return value are `PrunedIfDue` of the old state |
| History.HistoryStore.Prune | stormsense-pi/storm_sense/history_store.py:162-178 | the new state and the return value are `Pruned` of the old state |
| History.HistoryStore.Count | stormsense-pi/storm_sense/history_store.py:96-105 | the number of rows when live and no error occurs, else 0 |
| History.HistoryStore.Close | stormsense-pi/storm_sense/history_store.py:107-115 | the new state is `Closed` of the old one |
| History.HistoryStore.Clear | stormsense-pi/storm_sense/sensor_service.py:113 | assumed `clear`: the new state is `Cleared` of the old one |
| History.HistoryStore.GetLatest | stormsense-pi/storm_sense/sensor_service.py:129 | assumed `get_latest`: at most `limit` newest rows, oldest first; `[]` when unavailable |
| Sensor.Calibrate | stormsense-pi/storm_sense/sensor_service.py:60-62 | the corrected temperature equals the raw one exactly when the CPU is as warm, and lies below it exactly when the CPU is warmer |
| Sensor.CalibrationInvertible | stormsense-pi/storm_sense/sensor_service.py:62 | the raw temperature is recovered from the calibrated one and the CPU temperature: the correction loses nothing |
| Sensor.ToFahrenheit | stormsense-pi/storm_sense/sensor_service.py:65 | the Fahrenheit value converts back to the Celsius one, and it lies below 32 exactly when the Celsius value is below 0 |
| Sensor.FahrenheitRoundTrip | stormsense-pi/storm_sense/sensor_service.py:65 | Celsius to Fahrenheit and back is the identity, and the initial pair (0 °C, 32 °F) agrees |
| Sensor.CalibrationExample | stormsense-pi/tests/test_sensor_service.py:54-72 | 28 °C beside a 45 °C CPU gives 28 - 17/1.2; equal temperatures give no correction |
| Sensor.LevelFor | stormsense-pi/storm_sense/sensor_service.py:176-185 | each level is exactly its band of deltas: STORMY `<= -10`, RAIN `(-10, -6]`, CHANGE `(-6, -3]`, FAIR `(-3, 2)`, DRY `>= 2` |
| Sensor.LevelForMonotone | stormsense-pi/storm_sense/sensor_service.py:165-166 | a larger delta never moves the level towards STORMY on the barometer scale |
| Sensor.Assess | stormsense-pi/storm_sense/sensor_service.py:162-185 | no delta exactly when the window has fewer than 2 samples, and then FAIR; otherwise the level is the band of the delta |
| Sensor.ClassificationExamples | stormsense-pi/tests/test_sensor_service.py:87-200 | the station's own examples: -3.5 gives CHANGE, -6.5 gives RAIN, -10.5 gives STORMY, a single sample gives no delta and FAIR, and the exact boundaries -3, -6, -10, +2 pick the severe side |
| Sensor.SensorService.constructor | stormsense-pi/storm_sense/sensor_service.py:36-52 | the mode is TEMPERATURE; the session log is the newest 2880 stored rows; the window is the samples of the newest 360 of them, a suffix of the log; the level is the classification of the window; an unavailable store leaves every field initial |
| Sensor.SensorService.Ingest | stormsense-pi/storm_sense/sensor_service.py:56-80 | calibrated and Fahrenheit values; exactly one sample appended to the window and one reading to the session log, both bounded FIFO; the level and delta are the classification of the new window; the store holds the reading and is pruned if due |
| Sensor.SensorService.Status | stormsense-pi/storm_sense/sensor_service.py:82-95 | `samples_collected` is the window length; `history_full` holds iff the window holds 360; the level integer, label and mode name decode back to the current level and mode |
| Sensor.SensorService.GetHistory | stormsense-pi/storm_sense/sensor_service.py:97-107 | the store's query (limit 5000) when it is available; otherwise the session log after `since` when `since > 0`; otherwise the whole log |
| Sensor.SensorService.ResetHistory | stormsense-pi/storm_sense/sensor_service.py:109-115 | both logs are empty, the store is cleared, the level is FAIR and the delta is None; temperatures, pressure and mode are unchanged |
| Sensor.SensorService.Close | stormsense-pi/storm_sense/sensor_service.py:117-119 | the store is closed |
| Sensor.SensorService.Seed | stormsense-pi/storm_sense/sensor_service.py:123-146 | with an unavailable store nothing changes; otherwise the logs take the newest rows and the current values come from the latest row, reclassified |
| Sensor.SensorService.SeedFrom | stormsense-pi/storm_sense/sensor_service.py:128-146 | the session log and window are the old ones pushed with the rows and their newest 360 samples; with no rows the current values are unchanged |
| Sensor.SensorService.RestoreLatest | stormsense-pi/storm_sense/sensor_service.py:138-146 | the current values are the latest row's, and the level is recomputed from the window |
| Sensor.SensorService.AppendToSessionLog | stormsense-pi/storm_sense/sensor_service.py:130-131 | the first seeding loop pushes every row onto the session log in order |
| Sensor.SensorService.AppendToWindow | stormsense-pi/storm_sense/sensor_service.py:135-136 | the second seeding loop pushes the sample of every row onto the window in order |
| Sensor.SensorService.UpdateStormLevel | stormsense-pi/storm_sense/sensor_service.py:162-185 | the level and delta become the classification of the window given the current pressure |
| Sensor.SeededWindowEndsWithLatest | stormsense-pi/storm_sense/sensor_service.py:135-140 | the seeded window is within capacity and ends with the pressure of the latest row |
| Sensor.SamplesOfSuffix | stormsense-pi/storm_sense/sensor_service.py:135-136 | the samples of the newest `n` rows are the newest `n` samples |
| Sensor.DeltaIsWindowTrend | stormsense-pi/storm_sense/sensor_service.py:173-174 | in a consistent engine with two or more samples, the delta is the newest minus the oldest window pressure, and the level is its band |
| Sensor.StatusIsConsistent | stormsense-pi/storm_sense/sensor_service.py:91-94 | the status never reports more than 360 samples; the delta is None exactly below 2 samples, and then the status says FAIR (1) |

## Left out

- The hardware reads (`rh.weather.temperature()`, `rh.weather.pressure()`)
  and `time.time()` are inputs of `Ingest`, not calls.
- `_read_cpu_temp` and its 45.0 fallback are file I/O. The CPU temperature
  is an input.
- `prune_if_due` and `_prune` each call `time.time()`. The model uses a
  single `storeNow` for both, so the retention cut-off is taken at the
  moment the attempt is recorded.
- SQLite itself is not modelled: the connection, SQL text, the
  autoincrement `id`, the index, commits and logging. The table is a
  sequence of rows.
- An error while closing the connection is not modelled. The source sets
  the connection to `None` whatever happens, which is what `Close` does.
- A database file is modelled as the `persisted` rows given to the
  constructor. Persistence across a restart is stated on the
  specification functions (`ReopenKeepsReadings`), not across two objects.
- Readings carry the level as a `StormLevel` value, not an integer. The
  `ValueError` that `StormLevel(latest['storm_level'])` would raise on an
  unknown stored integer is not modelled.
- Floating-point rounding: temperatures, pressures and times are `real`.
- Concurrency: the web readers run beside the sampling thread without
  locking. Readers and interleavings are not modelled; every operation is
  atomic in the model.
- The main loop, the HTTP layer, the display/LED/buzzer driver and the
  hardware mocks are not part of this model. This includes the storm
  escalation check in the main loop, which relies on an ordering of the
  level integers that the shown `config.py` does not define.
- The rolling window is not proved to be in time order. The source appends
  whatever `time.time()` returns, which need not increase.
