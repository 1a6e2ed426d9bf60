/**
 * The durable history store: a table of readings behind a connection that
 * may fail to open. Every operation is a safe no-op, or gives an empty or
 * zero answer, when the connection is not live. A storage error during an
 * insert, query or prune is a per-call flag: the call then leaves the table
 * as it was and answers empty or zero, and the connection stays live.
 *
 * The abstract state is a StoreState value; the functions on it say what
 * each operation does, and the HistoryStore class performs the operations
 * on its fields and is proved against them.
 */
module History {

  import opened Config
  import opened Records
  import opened HistoryQuery

  /** The store: is the connection live, the rows of the readings table in
      insertion order, and the time of the last prune attempt. */
  datatype StoreState = StoreState(available: bool, rows: seq<Reading>, lastPrune: real)

  /** Opening a store over a file holding `persisted`: on success the table is
      the file's, on failure the store is unavailable. No prune has run yet. */
  function Opened(opens: bool, persisted: seq<Reading>): StoreState
  {
    StoreState(opens, if opens then persisted else [], 0.0)
  }

  /** Inserting one reading. */
  function Added(s: StoreState, r: Reading, fails: bool): StoreState
  {
    if s.available && !fails then s.(rows := s.rows + [r]) else s
  }

  /** The answer of a range query. */
  function HistoryOf(s: StoreState, limit: int, since: real, fails: bool): seq<Reading>
  {
    if s.available && !fails then Query(s.rows, limit, since) else []
  }

  /** The answer of a row count. */
  function CountOf(s: StoreState, fails: bool): nat
  {
    if s.available && !fails then |s.rows| else 0
  }

  /** The unconditional prune: the new state and the number of rows deleted. */
  function Pruned(s: StoreState, now: real, maxAge: int, fails: bool): (StoreState, nat)
  {
    if !s.available || fails then (s, 0)
    else
      var cutoff := now - maxAge as real;
      (s.(rows := Kept(s.rows, cutoff)), |Expired(s.rows, cutoff)|)
  }

  /** The rate-limited prune: skipped within an hour of the last attempt;
      otherwise the attempt is recorded, available or not, and then pruned. */
  function PrunedIfDue(s: StoreState, now: real, maxAge: int, fails: bool): (StoreState, nat)
  {
    if now - s.lastPrune < PruneIntervalS then (s, 0)
    else Pruned(s.(lastPrune := now), now, maxAge, fails)
  }

  /** Closing the connection; the table stays in the file. */
  function Closed(s: StoreState): StoreState
  {
    s.(available := false)
  }

  /** Deleting every row of a live store (the service's reset). */
  function Cleared(s: StoreState): StoreState
  {
    if s.available then s.(rows := []) else s
  }

  /** The answer of the newest-rows query the service seeds from. */
  function LatestOf(s: StoreState, limit: nat): seq<Reading>
  {
    if s.available then Latest(s.rows, limit) else []
  }

  /** Inserting a run of readings, one after another. */
  function AddedAll(s: StoreState, rs: seq<Reading>): StoreState
  {
    if rs == [] then s else Added(AddedAll(s, rs[..|rs| - 1]), rs[|rs| - 1], false)
  }

  // ── What the operations promise ─────────────────────────────

  /** An unavailable store is inert: inserts, clears and prunes change
      nothing, queries and counts answer empty and zero, and a prune deletes
      nothing. */
  lemma UnavailableIsInert(s: StoreState, r: Reading, limit: int, since: real, newest: nat, now: real, maxAge: int, fails: bool)
    requires !s.available
    ensures Added(s, r, fails) == s
    ensures HistoryOf(s, limit, since, fails) == []
    ensures CountOf(s, fails) == 0
    ensures LatestOf(s, newest) == []
    ensures Pruned(s, now, maxAge, fails) == (s, 0)
    ensures PrunedIfDue(s, now, maxAge, fails).1 == 0
    ensures PrunedIfDue(s, now, maxAge, fails).0.rows == s.rows
    ensures Cleared(s) == s
  {
  }

  /** On a live store an insert that does not fail appends exactly that row,
      and the count grows by one; an insert that fails changes nothing. */
  lemma AddAppendsOneRow(s: StoreState, r: Reading, fails: bool)
    requires s.available
    ensures !fails ==> Added(s, r, fails).rows == s.rows + [r]
    ensures !fails ==> CountOf(Added(s, r, fails), false) == CountOf(s, false) + 1
    ensures fails ==> Added(s, r, fails) == s
    ensures Added(s, r, fails).available && Added(s, r, fails).lastPrune == s.lastPrune
  {
  }

  /** A prune attempt within the hour is skipped: it deletes nothing and
      leaves rows and last-prune time unchanged. Otherwise the attempt time
      is recorded whatever follows. */
  lemma PruneIsRateLimited(s: StoreState, now: real, maxAge: int, fails: bool)
    ensures now - s.lastPrune < PruneIntervalS ==> PrunedIfDue(s, now, maxAge, fails) == (s, 0)
    ensures now - s.lastPrune >= PruneIntervalS ==> PrunedIfDue(s, now, maxAge, fails).0.lastPrune == now
  {
  }

  /** A prune on a live store keeps exactly the rows stamped at or after
      `now - maxAge`, deletes exactly the older ones, and reports how many it
      deleted: the count drops by that number. */
  lemma PruneDeletesExpired(s: StoreState, now: real, maxAge: int)
    requires s.available
    ensures var (t, deleted) := Pruned(s, now, maxAge, false);
            && (forall x :: x in t.rows <==> x in s.rows && x.timestamp >= now - maxAge as real)
            && deleted == |Expired(s.rows, now - maxAge as real)|
            && CountOf(t, false) + deleted == CountOf(s, false)
            && t.available && t.lastPrune == s.lastPrune
  {
    PrunePartition(s.rows, now - maxAge as real);
  }

  /** A prune deletes nothing when no row is older than the retention age. */
  lemma PruneKeepsRecent(s: StoreState, now: real, maxAge: int, fails: bool)
    requires forall k :: 0 <= k < |s.rows| ==> s.rows[k].timestamp >= now - maxAge as real
    ensures Pruned(s, now, maxAge, fails) == (s, 0)
  {
    KeptUnchanged(s.rows, now - maxAge as real);
  }

  /** A freshly opened store has no prune on record, so its first prune
      attempt at any time from one hour on is not skipped. */
  lemma FirstPruneRuns(opens: bool, persisted: seq<Reading>, now: real, maxAge: int, fails: bool)
    requires now >= PruneIntervalS
    ensures PrunedIfDue(Opened(opens, persisted), now, maxAge, fails).0.lastPrune == now
  {
  }

  /** Closing makes the store unavailable and keeps its table; closing again
      changes nothing. */
  lemma CloseIsIdempotent(s: StoreState)
    ensures !Closed(s).available && Closed(s).rows == s.rows
    ensures Closed(Closed(s)) == Closed(s)
  {
  }

  /** A clear empties a live store. */
  lemma ClearEmpties(s: StoreState)
    requires s.available
    ensures Cleared(s).rows == [] && CountOf(Cleared(s), false) == 0
  {
  }

  /** Inserting readings into a live store appends them in order. */
  lemma {:induction false} AddedAllAppends(s: StoreState, rs: seq<Reading>)
    requires s.available
    ensures AddedAll(s, rs) == s.(rows := s.rows + rs)
  {
    if rs != [] {
      AddedAllAppends(s, rs[..|rs| - 1]);
      assert s.rows + rs[..|rs| - 1] + [rs[|rs| - 1]] == s.rows + rs;
    }
  }

  /** Readings survive a restart: write them to a fresh file, close, open the
      same file again, and the count is their number and a query from time
      zero with a limit that does not cut returns all of them in ascending
      time order. */
  lemma ReopenKeepsReadings(rs: seq<Reading>, limit: int)
    requires forall k :: 0 <= k < |rs| ==> rs[k].timestamp > 0.0
    requires limit < 0 || |rs| <= limit
    ensures var reopened := Opened(true, Closed(AddedAll(Opened(true, []), rs)).rows);
            && CountOf(reopened, false) == |rs|
            && HistoryOf(reopened, limit, 0.0, false) == SortByTime(rs)
  {
    var empty := StoreState(true, [], 0.0);
    AddedAllAppends(empty, rs);
    assert [] + rs == rs;
    QueryAllRows(rs, limit);
  }

  /** A query from time zero whose limit does not cut returns every row, in
      time order. */
  lemma QueryAllRows(rs: seq<Reading>, limit: int)
    requires forall k :: 0 <= k < |rs| ==> rs[k].timestamp > 0.0
    requires limit < 0 || |rs| <= limit
    ensures Query(rs, limit, 0.0) == SortByTime(rs)
  {
    AfterAllLater(rs, 0.0);
  }

  // ── The store object ────────────────────────────────────────

  class HistoryStore {
    /** Whether the connection is live. */
    var available: bool
    /** The readings table, in insertion order. */
    var rows: seq<Reading>
    /** Time of the last prune attempt, in seconds. */
    var lastPrune: real

    function State(): StoreState
      reads this
    {
      StoreState(available, rows, lastPrune)
    }

    /** Opening the database: `opens` says whether creating the directory,
        connecting and creating the schema all succeed; `persisted` is what
        the file already holds. A failure leaves the store unavailable. */
    constructor (opens: bool, persisted: seq<Reading>)
      ensures State() == Opened(opens, persisted)
      ensures IsAvailable() <==> opens
      ensures lastPrune == 0.0 && (!opens ==> rows == [])
    {
      if opens {
        available, rows := true, persisted;
      } else {
        available, rows := false, [];
      }
      lastPrune := 0.0;
    }

    /** True when the connection is live. */
    predicate IsAvailable(): (live: bool)
      reads this
      ensures live <==> State().available
    {
      available
    }

    /** Persisting one reading; silently skipped when unavailable or when the
        insert fails. */
    method AddReading(r: Reading, fails: bool)
      modifies this
      ensures State() == Added(old(State()), r, fails)
    {
      if !available {
        return;
      }
      if !fails {
        rows := rows + [r];
      }
    }

    /** Rows stamped after `since`, ascending, at most `limit`. */
    method GetHistory(limit: int, since: real, fails: bool) returns (result: seq<Reading>)
      ensures result == HistoryOf(State(), limit, since, fails)
      ensures forall x :: x in result ==> x in rows && x.timestamp > since
      ensures SortedByTime(result)
    {
      if !available {
        return [];
      }
      if fails {
        return [];
      }
      result := Query(rows, limit, since);
      QuerySpec(rows, limit, since);
    }

    /** Pruning at most once an hour; the number of rows deleted, 0 when
        skipped or unavailable. */
    method PruneIfDue(now: real, maxAge: int, fails: bool) returns (deleted: nat)
      modifies this
      ensures (State(), deleted) == PrunedIfDue(old(State()), now, maxAge, fails)
    {
      if now - lastPrune < PruneIntervalS {
        return 0;
      }
      lastPrune := now;
      deleted := Prune(now, maxAge, fails);
    }

    /** Deleting the rows older than `maxAge` seconds before `now`. */
    method Prune(now: real, maxAge: int, fails: bool) returns (deleted: nat)
      modifies this
      ensures (State(), deleted) == Pruned(old(State()), now, maxAge, fails)
    {
      if !available {
        return 0;
      }
      if fails {
        return 0;
      }
      var cutoff := now - maxAge as real;
      deleted := |Expired(rows, cutoff)|;
      rows := Kept(rows, cutoff);
    }

    /** Total number of stored readings; 0 when unavailable. */
    method Count(fails: bool) returns (n: nat)
      ensures n == CountOf(State(), fails)
      ensures n == if available && !fails then |rows| else 0
    {
      if !available || fails {
        return 0;
      }
      n := |rows|;
    }

    /** Closing the connection; safe to repeat. */
    method Close()
      modifies this
      ensures State() == Closed(old(State()))
    {
      if available {
        available := false;
      }
    }

    /** Deleting all rows (assumed contract; see README). */
    method Clear()
      modifies this
      ensures State() == Cleared(old(State()))
    {
      if available {
        rows := [];
      }
    }

    /** The newest `limit` rows, oldest first (assumed contract; see README). */
    method GetLatest(limit: nat) returns (result: seq<Reading>)
      ensures result == LatestOf(State(), limit)
      ensures |result| <= limit
      ensures !available ==> result == []
    {
      if !available {
        return [];
      }
      result := Latest(rows, limit);
      LatestSpec(rows, limit);
    }
  }
}
