/**
 * Shared configuration of the weather station: sampling cadence, the sizes of
 * the two bounded logs, the pressure-trend thresholds, the heat calibration
 * factor, the store's retention settings and the two enumerations.
 */
module Config {

  import opened Wrappers

  // ── Sensor configuration ────────────────────────────────────

  /** Seconds between two sensor samples. */
  const SampleIntervalS: nat := 30
  /** Length in seconds of the rolling window used for storm detection (3 hours). */
  const HistoryWindowS: nat := 3 * 60 * 60
  /** Capacity of the rolling pressure window: the window length divided by
      the sample interval (integer division), 10800 / 30; ConfigConsistent
      proves the two agree. */
  const HistoryMaxSamples: nat := 360
  /** Capacity of the in-memory session log (24 hours at 30 s). */
  const SessionLogMax: nat := 2880

  // ── Storm thresholds (hPa change over the window) ───────────

  const StormWatchThreshold: real := -3.0
  const StormWarningThreshold: real := -6.0
  const StormSevereThreshold: real := -10.0
  /** Rising-pressure threshold for DRY; it must lie above the watch threshold. */
  const DryThreshold: real := 2.0

  /** Divisor of the CPU-heat correction of the raw temperature. */
  const CpuHeatFactor: real := 1.2

  // ── Constants of the history store and its callers ──────────

  /** Default retention age of stored rows: 7 days. */
  const PruneMaxAgeS: nat := 7 * 24 * 3600
  /** Minimum number of seconds between two prune attempts. */
  const PruneIntervalS: real := 3600.0
  /** Row limit the service passes when it answers a history request from the store. */
  const ServiceHistoryLimit: int := 5000

  /** The configuration is internally consistent: the window holds 360 samples,
      the session log is at least as long as the window, and the thresholds are
      strictly ordered, so the classification tiers are disjoint. */
  lemma ConfigConsistent()
    ensures HistoryMaxSamples == HistoryWindowS / SampleIntervalS
    ensures 0 < HistoryMaxSamples <= SessionLogMax
    ensures StormSevereThreshold < StormWarningThreshold < StormWatchThreshold < 0.0
    ensures StormWatchThreshold < DryThreshold
    ensures CpuHeatFactor > 0.0
  {
  }

  // ── Enumerations ────────────────────────────────────────────

  /** What the front display shows; owned by the user interface, echoed by the service. */
  datatype DisplayMode = DisplayTemperature | DisplayPressure | DisplayStormLevel

  /** The integer value of a display mode. */
  function ModeValue(m: DisplayMode): (v: int)
    ensures 0 <= v <= 2
    ensures m == DisplayTemperature <==> v == 0
    ensures m == DisplayPressure <==> v == 1
  {
    match m
    case DisplayTemperature => 0
    case DisplayPressure => 1
    case DisplayStormLevel => 2
  }

  /** The enumeration name of a display mode, as the status report shows it. */
  function ModeName(m: DisplayMode): string
  {
    match m
    case DisplayTemperature => "TEMPERATURE"
    case DisplayPressure => "PRESSURE"
    case DisplayStormLevel => "STORM_LEVEL"
  }

  /** Reading a display mode back from its name. */
  function ModeFromName(name: string): (r: Option<DisplayMode>)
    ensures r.Some? ==> ModeName(r.value) == name
  {
    if name == "TEMPERATURE" then Some(DisplayTemperature)
    else if name == "PRESSURE" then Some(DisplayPressure)
    else if name == "STORM_LEVEL" then Some(DisplayStormLevel)
    else None
  }

  /** Display-mode names are unambiguous: the name determines the mode. */
  lemma ModeNameRoundTrip(m: DisplayMode)
    ensures ModeFromName(ModeName(m)) == Some(m)
  {
  }

  /** The five-state weather classification of the barometer. */
  datatype StormLevel = Stormy | Rain | Change | Fair | Dry

  /** The stored integer value of a level. Only FAIR = 1 is fixed by the
      station's own checks; the other values are a modelling assumption
      (more severe weather has a larger value). */
  function Ordinal(l: StormLevel): (n: int)
    ensures 0 <= n <= 4
    ensures l == Fair <==> n == 1
  {
    match l
    case Dry => 0
    case Fair => 1
    case Change => 2
    case Rain => 3
    case Stormy => 4
  }

  /** Converting a stored integer back to a level; None where the enumeration
      constructor would raise. */
  function FromOrdinal(n: int): (r: Option<StormLevel>)
    ensures r.Some? <==> 0 <= n <= 4
    ensures r.Some? ==> Ordinal(r.value) == n
  {
    if n == 0 then Some(Dry)
    else if n == 1 then Some(Fair)
    else if n == 2 then Some(Change)
    else if n == 3 then Some(Rain)
    else if n == 4 then Some(Stormy)
    else None
  }

  /** Storing a level as its integer loses nothing. */
  lemma OrdinalRoundTrip(l: StormLevel)
    ensures FromOrdinal(Ordinal(l)) == Some(l)
  {
  }

  /** The enumeration name of a level, as the status report labels it. */
  function LevelName(l: StormLevel): string
  {
    match l
    case Stormy => "STORMY"
    case Rain => "RAIN"
    case Change => "CHANGE"
    case Fair => "FAIR"
    case Dry => "DRY"
  }

  /** Reading a level back from its label. */
  function LevelFromName(name: string): (r: Option<StormLevel>)
    ensures r.Some? ==> LevelName(r.value) == name
  {
    if name == "STORMY" then Some(Stormy)
    else if name == "RAIN" then Some(Rain)
    else if name == "CHANGE" then Some(Change)
    else if name == "FAIR" then Some(Fair)
    else if name == "DRY" then Some(Dry)
    else None
  }

  /** Level labels are unambiguous: the label determines the level. */
  lemma LevelNameRoundTrip(l: StormLevel)
    ensures LevelFromName(LevelName(l)) == Some(l)
  {
  }

  /** Position on the barometer scale of the LED bar, left to right:
      Stormy | Rain | Change | Fair | Dry. */
  function ScalePosition(l: StormLevel): (p: nat)
    ensures p <= 4
  {
    match l
    case Stormy => 0
    case Rain => 1
    case Change => 2
    case Fair => 3
    case Dry => 4
  }
}
