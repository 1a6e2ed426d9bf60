/**
 * The sensor state engine: it calibrates each raw temperature against the
 * CPU temperature, keeps the rolling pressure window and the session log,
 * classifies the weather trend from the pressure change across the window,
 * forwards each reading to the history store, and answers status and
 * history queries.
 *
 * The wall clock, the sensor and the CPU-temperature file are inputs of
 * Ingest; the store's own clock reads and its storage errors are inputs too.
 */
module Sensor {

  import opened Wrappers
  import opened Config
  import opened Records
  import opened BoundedDeque
  import opened HistoryQuery
  import opened History

  // ── Calibration ─────────────────────────────────────────────

  /** The raw temperature corrected for heat from the CPU: the sensor reads
      high by the CPU-to-sensor gap divided by the heat factor. */
  function Calibrate(raw: real, cpu: real): (t: real)
    ensures t == raw <==> cpu == raw
    ensures t < raw <==> cpu > raw
  {
    raw - (cpu - raw) / CpuHeatFactor
  }

  /** The raw reading that a calibrated temperature came from. */
  function Uncalibrate(t: real, cpu: real): real
  {
    (t * CpuHeatFactor + cpu) / (CpuHeatFactor + 1.0)
  }

  /** No information is lost by calibration: the raw reading is recovered
      from the calibrated one and the CPU temperature. */
  lemma CalibrationInvertible(raw: real, cpu: real)
    ensures Uncalibrate(Calibrate(raw, cpu), cpu) == raw
  {
    var t := Calibrate(raw, cpu);
    assert t * CpuHeatFactor == raw * CpuHeatFactor - (cpu - raw);
  }

  /** Degrees Fahrenheit from degrees Celsius. */
  function ToFahrenheit(c: real): (f: real)
    ensures (f - 32.0) * 5.0 / 9.0 == c
    ensures c < 0.0 <==> f < 32.0
  {
    c * 9.0 / 5.0 + 32.0
  }

  /** Degrees Celsius from degrees Fahrenheit. */
  function ToCelsius(f: real): real
  {
    (f - 32.0) * 5.0 / 9.0
  }

  /** The two scales convert into each other without loss, and the service's
      initial pair (0 °C, 32 °F) is one reading on both scales. */
  lemma FahrenheitRoundTrip(c: real, f: real)
    ensures ToCelsius(ToFahrenheit(c)) == c
    ensures ToFahrenheit(ToCelsius(f)) == f
    ensures ToFahrenheit(0.0) == 32.0
  {
  }

  /** The worked calibration example: 28 °C measured beside a 45 °C CPU. */
  lemma CalibrationExample()
    ensures Calibrate(28.0, 45.0) == 28.0 - 17.0 / 1.2
    ensures Calibrate(30.0, 30.0) == 30.0
  {
  }

  // ── Weather classification ──────────────────────────────────

  /** The ordered threshold chain, most severe first; equality at a threshold
      selects the more severe tier. Each level is the band of deltas below. */
  function LevelFor(delta: real): (l: StormLevel)
    ensures l == Stormy <==> delta <= StormSevereThreshold
    ensures l == Rain <==> StormSevereThreshold < delta <= StormWarningThreshold
    ensures l == Change <==> StormWarningThreshold < delta <= StormWatchThreshold
    ensures l == Dry <==> delta >= DryThreshold
    ensures l == Fair <==> StormWatchThreshold < delta < DryThreshold
  {
    if delta <= StormSevereThreshold then Stormy
    else if delta <= StormWarningThreshold then Rain
    else if delta <= StormWatchThreshold then Change
    else if delta >= DryThreshold then Dry
    else Fair
  }

  /** A larger pressure change never moves the barometer needle towards
      stormy: the classification is monotone along the scale. */
  lemma LevelForMonotone(d1: real, d2: real)
    requires d1 <= d2
    ensures ScalePosition(LevelFor(d1)) <= ScalePosition(LevelFor(d2))
  {
  }

  /** The delta across the window (None below two samples) and its level. */
  datatype Assessment = Assessment(delta: Option<real>, level: StormLevel)

  /** Classifying the window given the current pressure: with fewer than two
      samples there is no delta and the level is FAIR; otherwise the delta is
      the current pressure minus the oldest pressure in the window. */
  function Assess(window: seq<Sample>, current: real): (a: Assessment)
    ensures a.delta.None? <==> |window| < 2
    ensures a.delta.None? ==> a.level == Fair
    ensures a.delta.Some? ==> a.level == LevelFor(a.delta.value)
  {
    if |window| < 2 then Assessment(None, Fair)
    else
      var delta := current - window[0].pressure;
      Assessment(Some(delta), LevelFor(delta))
  }

  /** The station's own threshold examples, including the boundary cases. */
  lemma ClassificationExamples()
    ensures Assess([Sample(0.0, 1013.0)], 1013.0) == Assessment(None, Fair)
    ensures Assess([Sample(0.0, 1013.0), Sample(30.0, 1013.0)], 1013.0) == Assessment(Some(0.0), Fair)
    ensures Assess([Sample(0.0, 1013.0), Sample(30.0, 1009.5)], 1009.5) == Assessment(Some(-3.5), Change)
    ensures Assess([Sample(0.0, 1013.0), Sample(30.0, 1006.5)], 1006.5) == Assessment(Some(-6.5), Rain)
    ensures Assess([Sample(0.0, 1013.0), Sample(30.0, 1002.5)], 1002.5) == Assessment(Some(-10.5), Stormy)
    ensures LevelFor(-3.0) == Change && LevelFor(-6.0) == Rain && LevelFor(-10.0) == Stormy
    ensures LevelFor(2.0) == Dry
  {
  }

  // ── Status ──────────────────────────────────────────────────

  /** The status report: values, level as integer and label, how many
      samples the window holds, whether it is full, the display mode's name
      and the delta (None below two samples). */
  datatype StatusReport = StatusReport(
    temperature: real,
    temperatureF: real,
    rawTemperature: real,
    pressure: real,
    stormLevel: int,
    stormLabel: string,
    samplesCollected: nat,
    historyFull: bool,
    displayMode: string,
    pressureDelta: Option<real>)

  // ── The engine ──────────────────────────────────────────────

  class SensorService {
    var temperature: real
    var temperatureF: real
    var rawTemperature: real
    var pressure: real
    var stormLevel: StormLevel
    var pressureDelta: Option<real>
    var displayMode: DisplayMode
    /** The rolling window of (time stamp, pressure) samples, oldest first. */
    var window: seq<Sample>
    /** The in-memory session log of readings, oldest first. */
    var sessionLog: seq<Reading>
    const store: HistoryStore

    /** The engine's invariant: both logs within capacity, the level and the
        delta are the classification of the window, and the newest sample of
        the window is the current pressure. */
    ghost predicate Valid()
      reads this
    {
      && |window| <= HistoryMaxSamples
      && |sessionLog| <= SessionLogMax
      && Assessment(pressureDelta, stormLevel) == Assess(window, pressure)
      && (window != [] ==> window[|window| - 1].pressure == pressure)
    }

    /** A new engine over a store opened on a file holding `persisted`
        (`opens` says whether opening succeeds), seeded from that store. */
    constructor (opens: bool, persisted: seq<Reading>)
      ensures Valid() && fresh(store)
      ensures store.State() == Opened(opens, persisted)
      ensures displayMode == DisplayTemperature
      ensures !opens ==> window == [] && sessionLog == []
      ensures var rows := LatestOf(Opened(opens, persisted), SessionLogMax);
              && sessionLog == rows
              && window == SamplesOf(Suffix(rows, HistoryMaxSamples))
              && window == Suffix(SamplesOf(sessionLog), HistoryMaxSamples)
      ensures sessionLog == [] ==>
                temperature == 0.0 && temperatureF == 32.0 && rawTemperature == 0.0 &&
                pressure == 0.0 && stormLevel == Fair && pressureDelta == None
      ensures sessionLog != [] ==>
                var latest := sessionLog[|sessionLog| - 1];
                && temperature == latest.temperature && temperatureF == latest.temperatureF
                && rawTemperature == latest.rawTemperature && pressure == latest.pressure
    {
      temperature := 0.0;
      temperatureF := 32.0;
      rawTemperature := 0.0;
      pressure := 0.0;
      stormLevel := Fair;
      pressureDelta := None;
      displayMode := DisplayTemperature;
      window := [];
      sessionLog := [];
      store := new HistoryStore(opens, persisted);
      new;
      Seed();
      var rows := LatestOf(Opened(opens, persisted), SessionLogMax);
      if opens {
        LatestSpec(persisted, SessionLogMax);
      }
      PushAllFromEmpty(rows, SessionLogMax);
      PushAllFromEmpty(SamplesOf(Suffix(rows, HistoryMaxSamples)), HistoryMaxSamples);
      SamplesOfSuffix(rows, HistoryMaxSamples);
    }

    /** One sample: calibrate, append to the window, reclassify, log the
        reading, persist it and let the store prune if due. Storage errors
        never abort: `addFails` and `pruneFails` only affect the store. */
    method Ingest(rawTemp: real, cpuTemp: real, rawPressure: real, now: real,
                  storeNow: real, addFails: bool, pruneFails: bool)
      requires Valid()
      modifies this, store
      ensures Valid()
      ensures rawTemperature == rawTemp && pressure == rawPressure
      ensures temperature == Calibrate(rawTemp, cpuTemp)
      ensures temperatureF == ToFahrenheit(temperature)
      ensures window == Push(old(window), Sample(now, rawPressure), HistoryMaxSamples)
      ensures Assessment(pressureDelta, stormLevel) == Assess(window, pressure)
      ensures var reading := Reading(now, temperature, temperatureF, rawTemperature, pressure, stormLevel);
              && sessionLog == Push(old(sessionLog), reading, SessionLogMax)
              && store.State() == PrunedIfDue(Added(old(store.State()), reading, addFails),
                                              storeNow, PruneMaxAgeS, pruneFails).0
      ensures displayMode == old(displayMode)
    {
      rawTemperature := rawTemp;
      temperature := Calibrate(rawTemperature, cpuTemp);
      pressure := rawPressure;
      temperatureF := ToFahrenheit(temperature);

      window := Push(window, Sample(now, pressure), HistoryMaxSamples);
      UpdateStormLevel();

      var reading := Reading(now, temperature, temperatureF, rawTemperature, pressure, stormLevel);
      sessionLog := Push(sessionLog, reading, SessionLogMax);
      store.AddReading(reading, addFails);
      var _ := store.PruneIfDue(storeNow, PruneMaxAgeS, pruneFails);
    }

    /** The status report of the current state. */
    function Status(): (s: StatusReport)
      reads this
      ensures s.samplesCollected == |window|
      ensures s.historyFull <==> |window| == HistoryMaxSamples
      ensures FromOrdinal(s.stormLevel) == Some(stormLevel)
      ensures LevelFromName(s.stormLabel) == Some(stormLevel)
      ensures ModeFromName(s.displayMode) == Some(displayMode)
      ensures s.temperature == temperature && s.temperatureF == temperatureF
      ensures s.rawTemperature == rawTemperature && s.pressure == pressure
      ensures s.pressureDelta == pressureDelta
    {
      StatusReport(
        temperature, temperatureF, rawTemperature, pressure,
        Ordinal(stormLevel), LevelName(stormLevel),
        |window|, |window| == HistoryMaxSamples,
        ModeName(displayMode), pressureDelta)
    }

    /** The history answer: the store's query when it is available, else the
        session log, filtered by `since` only when `since` is positive. */
    method GetHistory(since: real, queryFails: bool) returns (h: seq<Reading>)
      ensures store.available ==> h == HistoryOf(store.State(), ServiceHistoryLimit, since, queryFails)
      ensures !store.available && since > 0.0 ==> h == After(sessionLog, since)
      ensures !store.available && since <= 0.0 ==> h == sessionLog
    {
      if store.IsAvailable() {
        h := store.GetHistory(ServiceHistoryLimit, since, queryFails);
        return;
      }
      if since > 0.0 {
        return After(sessionLog, since);
      }
      h := sessionLog;
    }

    /** Clearing both logs and the store; the level returns to FAIR and the
        delta to None. The current readings and display mode are kept. */
    method ResetHistory()
      requires Valid()
      modifies this, store
      ensures Valid()
      ensures window == [] && sessionLog == []
      ensures stormLevel == Fair && pressureDelta == None
      ensures store.State() == Cleared(old(store.State()))
      ensures temperature == old(temperature) && temperatureF == old(temperatureF)
      ensures rawTemperature == old(rawTemperature) && pressure == old(pressure)
      ensures displayMode == old(displayMode)
    {
      window := [];
      sessionLog := [];
      store.Clear();
      stormLevel := Fair;
      pressureDelta := None;
    }

    /** Shutting down the history store. */
    method Close()
      modifies store
      ensures store.State() == Closed(old(store.State()))
    {
      store.Close();
    }

    /** Startup seeding from the store's newest rows: the session log takes
        them all, the window the samples of the newest that fit, and the
        current values are those of the latest row, reclassified. An
        unavailable store changes nothing. */
    method Seed()
      requires Valid()
      modifies this
      ensures Valid()
      ensures !store.available ==> unchanged(this)
      ensures store.available ==>
                var rows := Latest(store.rows, SessionLogMax);
                && sessionLog == PushAll(old(sessionLog), rows, SessionLogMax)
                && window == PushAll(old(window), SamplesOf(Suffix(rows, HistoryMaxSamples)), HistoryMaxSamples)
                && (rows == [] ==>
                      && temperature == old(temperature) && temperatureF == old(temperatureF)
                      && rawTemperature == old(rawTemperature) && pressure == old(pressure)
                      && stormLevel == old(stormLevel) && pressureDelta == old(pressureDelta))
                && (rows != [] ==>
                      var latest := rows[|rows| - 1];
                      && temperature == latest.temperature && temperatureF == latest.temperatureF
                      && rawTemperature == latest.rawTemperature && pressure == latest.pressure)
      ensures displayMode == old(displayMode)
    {
      if !store.IsAvailable() {
        return;
      }
      var rows := store.GetLatest(SessionLogMax);
      SeedFrom(rows);
    }

    /** Seeding from the rows the store returned, at most a session log's
        worth of them. */
    method SeedFrom(rows: seq<Reading>)
      requires Valid() && |rows| <= SessionLogMax
      modifies this`sessionLog, this`window
      modifies this`temperature, this`temperatureF, this`rawTemperature, this`pressure
      modifies this`stormLevel, this`pressureDelta
      ensures Valid()
      ensures sessionLog == PushAll(old(sessionLog), rows, SessionLogMax)
      ensures window == PushAll(old(window), SamplesOf(Suffix(rows, HistoryMaxSamples)), HistoryMaxSamples)
      ensures rows == [] ==>
                && temperature == old(temperature) && temperatureF == old(temperatureF)
                && rawTemperature == old(rawTemperature) && pressure == old(pressure)
                && stormLevel == old(stormLevel) && pressureDelta == old(pressureDelta)
      ensures rows != [] ==>
                var latest := rows[|rows| - 1];
                && temperature == latest.temperature && temperatureF == latest.temperatureF
                && rawTemperature == latest.rawTemperature && pressure == latest.pressure
    {
      AppendToSessionLog(rows);
      AppendToWindow(Suffix(rows, HistoryMaxSamples));
      ghost var log1, window1 := sessionLog, window;
      if rows != [] {
        SeededWindowEndsWithLatest(old(window), rows);
        RestoreLatest(rows[|rows| - 1]);
        assert sessionLog == log1 && window == window1;
      }
    }

    /** Taking the current values from the latest stored reading, then
        reclassifying over the window. */
    method RestoreLatest(latest: Reading)
      modifies this`temperature, this`temperatureF, this`rawTemperature, this`pressure
      modifies this`stormLevel, this`pressureDelta
      requires |window| <= HistoryMaxSamples && |sessionLog| <= SessionLogMax
      requires window != [] && window[|window| - 1].pressure == latest.pressure
      ensures Valid()
      ensures temperature == latest.temperature && temperatureF == latest.temperatureF
      ensures rawTemperature == latest.rawTemperature && pressure == latest.pressure
      ensures Assessment(pressureDelta, stormLevel) == Assess(window, pressure)
    {
      temperature := latest.temperature;
      temperatureF := latest.temperatureF;
      rawTemperature := latest.rawTemperature;
      pressure := latest.pressure;
      stormLevel := latest.level;
      UpdateStormLevel();
    }

    /** The first seeding loop: every row, oldest first, onto the session log. */
    method AppendToSessionLog(rows: seq<Reading>)
      modifies this`sessionLog
      ensures sessionLog == PushAll(old(sessionLog), rows, SessionLogMax)
    {
      for i := 0 to |rows|
        invariant sessionLog == PushAll(old(sessionLog), rows[..i], SessionLogMax)
      {
        assert rows[..i + 1][..i] == rows[..i];
        sessionLog := Push(sessionLog, rows[i], SessionLogMax);
      }
      assert rows[..|rows|] == rows;
    }

    /** The second seeding loop: the sample of every row, oldest first, onto
        the pressure window. */
    method AppendToWindow(rows: seq<Reading>)
      modifies this`window
      ensures window == PushAll(old(window), SamplesOf(rows), HistoryMaxSamples)
    {
      for j := 0 to |rows|
        invariant window == PushAll(old(window), SamplesOf(rows[..j]), HistoryMaxSamples)
      {
        assert rows[..j + 1][..j] == rows[..j];
        var samples := SamplesOf(rows[..j + 1]);
        assert samples[..|samples| - 1] == SamplesOf(rows[..j]);
        window := Push(window, SampleOf(rows[j]), HistoryMaxSamples);
      }
      assert rows[..|rows|] == rows;
    }

    /** Recomputing the delta across the window and the level from it. */
    method UpdateStormLevel()
      modifies this`pressureDelta, this`stormLevel
      ensures Assessment(pressureDelta, stormLevel) == Assess(window, pressure)
    {
      if |window| < 2 {
        pressureDelta := None;
        stormLevel := Fair;
        return;
      }
      var oldest := window[0].pressure;
      var delta := pressure - oldest;
      pressureDelta := Some(delta);
      if delta <= StormSevereThreshold {
        stormLevel := Stormy;
      } else if delta <= StormWarningThreshold {
        stormLevel := Rain;
      } else if delta <= StormWatchThreshold {
        stormLevel := Change;
      } else if delta >= DryThreshold {
        stormLevel := Dry;
      } else {
        stormLevel := Fair;
      }
    }
  }

  /** Seeding the window from a non-empty run of rows leaves it within
      capacity and ending with the sample of the latest row. */
  lemma SeededWindowEndsWithLatest(w: seq<Sample>, rows: seq<Reading>)
    requires rows != []
    ensures var win := PushAll(w, SamplesOf(Suffix(rows, HistoryMaxSamples)), HistoryMaxSamples);
            && |win| <= HistoryMaxSamples
            && win != []
            && win[|win| - 1].pressure == rows[|rows| - 1].pressure
  {
    var tail := Suffix(rows, HistoryMaxSamples);
    assert tail[|tail| - 1] == rows[|rows| - 1];
    var samples := SamplesOf(tail);
    assert samples[|samples| - 1] == SampleOf(tail[|tail| - 1]);
  }

  /** The samples of the newest `n` readings are the newest `n` samples. */
  lemma SamplesOfSuffix(rows: seq<Reading>, n: nat)
    ensures SamplesOf(Suffix(rows, n)) == Suffix(SamplesOf(rows), n)
  {
    var t := Suffix(rows, n);
    var u := SamplesOf(rows);
    var a := SamplesOf(t);
    var b := Suffix(u, n);
    var off := |rows| - |t|;
    assert t == rows[off..];
    assert b == u[off..];
    forall k | 0 <= k < |a|
      ensures a[k] == b[k]
    {
      calc {
        a[k];
        SampleOf(t[k]);
        SampleOf(rows[off + k]);
        u[off + k];
        b[k];
      }
    }
  }

  /** In a consistent engine the delta is the newest minus the oldest
      pressure of the window, classified by the threshold chain. */
  lemma DeltaIsWindowTrend(svc: SensorService)
    requires svc.Valid() && |svc.window| >= 2
    ensures svc.pressureDelta == Some(svc.window[|svc.window| - 1].pressure - svc.window[0].pressure)
    ensures svc.stormLevel == LevelFor(svc.pressureDelta.value)
  {
  }

  /** A consistent engine reports consistently: no more samples than the
      window holds, no delta exactly when fewer than two samples, and then
      the label FAIR. */
  lemma StatusIsConsistent(svc: SensorService)
    requires svc.Valid()
    ensures svc.Status().samplesCollected <= HistoryMaxSamples
    ensures svc.Status().pressureDelta.None? <==> svc.Status().samplesCollected < 2
    ensures svc.Status().pressureDelta.None? ==> svc.Status().stormLabel == "FAIR" && svc.Status().stormLevel == 1
  {
  }
}
