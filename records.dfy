/**
 * The records that flow through the station: a finished reading (one row of
 * the session log and of the durable store) and a pressure sample of the
 * rolling window.
 */
module Records {

  import opened Config

  /** One finished reading: time stamp in seconds, calibrated temperature in
      Celsius and Fahrenheit, raw sensor temperature, pressure in hPa, level. */
  datatype Reading = Reading(
    timestamp: real,
    temperature: real,
    temperatureF: real,
    rawTemperature: real,
    pressure: real,
    level: StormLevel)

  /** One entry of the rolling pressure window: (time stamp, pressure). */
  datatype Sample = Sample(timestamp: real, pressure: real)

  /** The (time stamp, pressure) pair of a reading. */
  function SampleOf(r: Reading): (s: Sample)
    ensures s.timestamp == r.timestamp && s.pressure == r.pressure
  {
    Sample(r.timestamp, r.pressure)
  }

  /** The samples of a sequence of readings, in the same order. */
  function SamplesOf(rs: seq<Reading>): (ss: seq<Sample>)
    ensures |ss| == |rs|
    ensures forall k :: 0 <= k < |rs| ==> ss[k] == SampleOf(rs[k])
  {
    if rs == [] then [] else SamplesOf(rs[..|rs| - 1]) + [SampleOf(rs[|rs| - 1])]
  }

  /** The readings of `rs` stamped strictly after `since`, in their original
      order (the `timestamp > since` filter). */
  function After(rs: seq<Reading>, since: real): (r: seq<Reading>)
    ensures |r| <= |rs|
    ensures forall x :: x in r <==> x in rs && x.timestamp > since
    ensures multiset(r) <= multiset(rs)
  {
    if rs == [] then []
    else
      assert rs == [rs[0]] + rs[1..];
      if rs[0].timestamp > since then [rs[0]] + After(rs[1..], since)
      else After(rs[1..], since)
  }

  /** Filtering one reading keeps it exactly when it is stamped after `since`. */
  lemma AfterOne(x: Reading, since: real)
    ensures After([x], since) == if x.timestamp > since then [x] else []
  {
    assert [x][1..] == [];
  }

  /** Filtering distributes over concatenation: the readings kept from `a`
      come first, in their order, then those kept from `b`. With AfterOne
      this says the filter keeps every matching reading, each as often as it
      occurs, in insertion order. */
  lemma {:induction false} AfterConcat(a: seq<Reading>, b: seq<Reading>, since: real)
    ensures After(a + b, since) == After(a, since) + After(b, since)
  {
    if a == [] {
      assert a + b == b;
    } else {
      assert (a + b)[0] == a[0];
      assert (a + b)[1..] == a[1..] + b;
      AfterConcat(a[1..], b, since);
    }
  }

  /** Filtering keeps order: if the input is in time order, so is the output. */
  lemma {:induction false} AfterKeepsOrder(rs: seq<Reading>, since: real)
    requires SortedByTime(rs)
    ensures SortedByTime(After(rs, since))
  {
    if rs != [] {
      AfterKeepsOrder(rs[1..], since);
      assert SortedByTime(rs[1..]);
    }
  }

  /** Filtering with a bound below every time stamp keeps the whole sequence. */
  lemma {:induction false} AfterAllLater(rs: seq<Reading>, since: real)
    requires forall k :: 0 <= k < |rs| ==> rs[k].timestamp > since
    ensures After(rs, since) == rs
  {
    if rs != [] {
      AfterAllLater(rs[1..], since);
      assert [rs[0]] + rs[1..] == rs;
    }
  }

  /** The readings are in non-decreasing time-stamp order. */
  predicate SortedByTime(rs: seq<Reading>)
  {
    forall i, j :: 0 <= i < j < |rs| ==> rs[i].timestamp <= rs[j].timestamp
  }
}
