/**
 * What the durable store's queries compute over its table of rows: the
 * time-ordered range query with a row limit, the "most recent rows" query
 * the service seeds from, and the age-based retention filter.
 *
 * The table is a sequence of rows in insertion order. Ordering by time stamp
 * is modelled as a stable sort: rows with equal time stamps keep their
 * insertion order.
 */
module HistoryQuery {

  import opened Records

  // ── Ordering by time stamp ──────────────────────────────────

  /** Placing `x` into time-ordered `s` after every row not later than it. */
  function Insert(s: seq<Reading>, x: Reading): (r: seq<Reading>)
    ensures |r| == |s| + 1
    ensures multiset(r) == multiset(s) + multiset{x}
  {
    if s == [] || s[|s| - 1].timestamp <= x.timestamp then s + [x]
    else
      assert s == s[..|s| - 1] + [s[|s| - 1]];
      Insert(s[..|s| - 1], x) + [s[|s| - 1]]
  }

  /** Appending a row no earlier than every row keeps a sequence time-ordered. */
  lemma SortedAppend(r: seq<Reading>, y: Reading)
    requires SortedByTime(r)
    requires forall k :: 0 <= k < |r| ==> r[k].timestamp <= y.timestamp
    ensures SortedByTime(r + [y])
  {
    var t := r + [y];
    forall i, j | 0 <= i < j < |t|
      ensures t[i].timestamp <= t[j].timestamp
    {
      assert t[i] == r[i];
      if j < |r| {
        assert t[j] == r[j];
      }
    }
  }

  /** Insertion keeps a time-ordered sequence time-ordered. */
  lemma {:induction false} InsertSorted(s: seq<Reading>, x: Reading)
    requires SortedByTime(s)
    ensures SortedByTime(Insert(s, x))
  {
    if s == [] || s[|s| - 1].timestamp <= x.timestamp {
      SortedAppend(s, x);
    } else {
      var init := s[..|s| - 1];
      var last := s[|s| - 1];
      SortedPrefix(s, |s| - 1);
      InsertSorted(init, x);
      var r := Insert(init, x);
      forall k | 0 <= k < |r|
        ensures r[k].timestamp <= last.timestamp
      {
        assert r[k] in multiset(r);
        if r[k] != x {
          assert r[k] in multiset(init);
          var m :| 0 <= m < |init| && init[m] == r[k];
          assert init[m] == s[m];
        }
      }
      SortedAppend(r, last);
    }
  }

  /** The rows in ascending time-stamp order (ORDER BY timestamp ASC). */
  function SortByTime(rs: seq<Reading>): (r: seq<Reading>)
    ensures |r| == |rs|
    ensures multiset(r) == multiset(rs)
  {
    if rs == [] then []
    else
      assert rs == rs[..|rs| - 1] + [rs[|rs| - 1]];
      Insert(SortByTime(rs[..|rs| - 1]), rs[|rs| - 1])
  }

  /** The sort produces a time-ordered permutation of its input. */
  lemma {:induction false} SortByTimeSorted(rs: seq<Reading>)
    ensures SortedByTime(SortByTime(rs))
  {
    if rs != [] {
      SortByTimeSorted(rs[..|rs| - 1]);
      InsertSorted(SortByTime(rs[..|rs| - 1]), rs[|rs| - 1]);
    }
  }

  /** A row no earlier than the last of `s` goes at the end. */
  lemma InsertAtEnd(s: seq<Reading>, x: Reading)
    requires s == [] || s[|s| - 1].timestamp <= x.timestamp
    ensures Insert(s, x) == s + [x]
  {
  }

  /** Every prefix of a time-ordered sequence is time-ordered. */
  lemma SortedPrefix(rs: seq<Reading>, n: nat)
    requires SortedByTime(rs) && n <= |rs|
    ensures SortedByTime(rs[..n])
  {
    forall i, j | 0 <= i < j < n
      ensures rs[..n][i].timestamp <= rs[..n][j].timestamp
    {
      assert rs[..n][i] == rs[i] && rs[..n][j] == rs[j];
    }
  }

  /** Rows already in time order are returned as they are, so equal time
      stamps keep their insertion order. */
  lemma {:induction false} SortByTimeOfSorted(rs: seq<Reading>)
    requires SortedByTime(rs)
    ensures SortByTime(rs) == rs
  {
    if rs != [] {
      var init := rs[..|rs| - 1];
      var last := rs[|rs| - 1];
      SortedPrefix(rs, |rs| - 1);
      calc {
        SortByTime(rs);
        Insert(SortByTime(init), last);
        { SortByTimeOfSorted(init); }
        Insert(init, last);
        { assert init != [] ==> init[|init| - 1] == rs[|rs| - 2];
          InsertAtEnd(init, last); }
        init + [last];
        rs;
      }
    }
  }

  // ── The range query ─────────────────────────────────────────

  /** The first `limit` rows of `s`; a negative limit means no limit, as in
      SQLite's LIMIT clause. */
  function Take(s: seq<Reading>, limit: int): (r: seq<Reading>)
    ensures limit < 0 || |s| <= limit ==> r == s
    ensures 0 <= limit < |s| ==> |r| == limit
    ensures r == s[..|r|]
  {
    if limit < 0 || |s| <= limit then s else s[..limit]
  }

  /** Rows stamped after `since`, oldest first, at most `limit` of them. */
  function Query(rows: seq<Reading>, limit: int, since: real): seq<Reading>
  {
    Take(SortByTime(After(rows, since)), limit)
  }

  /** Two sequences with the same elements counted with multiplicity hold
      the same rows. */
  lemma SameRows(a: seq<Reading>, b: seq<Reading>, x: Reading)
    requires multiset(a) == multiset(b)
    ensures x in a <==> x in b
  {
    assert x in a <==> x in multiset(a);
    assert x in b <==> x in multiset(b);
  }

  /** What a range query promises: only rows stamped after `since`, in
      ascending time order, no more than `limit` (a non-negative one) and
      every matching row when there are not more than `limit`. */
  lemma QuerySpec(rows: seq<Reading>, limit: int, since: real)
    ensures forall x :: x in Query(rows, limit, since) ==> x in rows && x.timestamp > since
    ensures SortedByTime(Query(rows, limit, since))
    ensures 0 <= limit ==> |Query(rows, limit, since)| <= limit
    ensures |Query(rows, limit, since)| == if 0 <= limit < |After(rows, since)| then limit else |After(rows, since)|
  {
    var matching := SortByTime(After(rows, since));
    SortByTimeSorted(After(rows, since));
    var result := Query(rows, limit, since);
    assert result == matching[..|result|];
    SortedPrefix(matching, |result|);
    forall x | x in result
      ensures x in rows && x.timestamp > since
    {
      var k :| 0 <= k < |result| && result[k] == x;
      assert x == matching[k];
      SameRows(matching, After(rows, since), x);
    }
  }

  /** The rows a range query returns are the earliest matching ones:
      together with the matching rows it leaves out they make up all
      matching rows, and every row left out is stamped no earlier than every
      row returned. */
  lemma QueryTakesEarliest(rows: seq<Reading>, limit: int, since: real)
    ensures var matching := SortByTime(After(rows, since));
            var result := Query(rows, limit, since);
            var rest := matching[|result|..];
            && multiset(result) + multiset(rest) == multiset(After(rows, since))
            && forall i, j :: 0 <= i < |result| && 0 <= j < |rest| ==> result[i].timestamp <= rest[j].timestamp
  {
    var matching := SortByTime(After(rows, since));
    SortByTimeSorted(After(rows, since));
    var result := Query(rows, limit, since);
    var rest := matching[|result|..];
    assert matching == result + rest;
    forall i, j | 0 <= i < |result| && 0 <= j < |rest|
      ensures result[i].timestamp <= rest[j].timestamp
    {
      assert result[i] == matching[i] && rest[j] == matching[|result| + j];
    }
  }

  /** With nothing to cut, the range query over rows already in time order
      is the plain `timestamp > since` filter: the service's in-memory
      fallback answers the same as the store would over the same rows. */
  lemma FallbackAgreesWithQuery(rows: seq<Reading>, limit: int, since: real)
    requires SortedByTime(rows)
    requires limit < 0 || |rows| <= limit
    ensures Query(rows, limit, since) == After(rows, since)
  {
    AfterKeepsOrder(rows, since);
    SortByTimeOfSorted(After(rows, since));
  }

  // ── The most recent rows ────────────────────────────────────

  /** The newest `limit` rows, oldest first. */
  function Latest(rows: seq<Reading>, limit: nat): seq<Reading>
  {
    var sorted := SortByTime(rows);
    sorted[|sorted| - (if |sorted| <= limit then |sorted| else limit)..]
  }

  /** What the newest-rows query promises: at most `limit` rows, all of the
      table when it is not longer, in ascending time order, and every row it
      leaves out is no later than every row it returns. */
  lemma LatestSpec(rows: seq<Reading>, limit: nat)
    ensures |Latest(rows, limit)| == if |rows| <= limit then |rows| else limit
    ensures SortedByTime(Latest(rows, limit))
    ensures var sorted := SortByTime(rows);
            var result := Latest(rows, limit);
            var older := sorted[..|sorted| - |result|];
            && multiset(older) + multiset(result) == multiset(rows)
            && forall i, j :: 0 <= i < |older| && 0 <= j < |result| ==> older[i].timestamp <= result[j].timestamp
  {
    var sorted := SortByTime(rows);
    SortByTimeSorted(rows);
    var result := Latest(rows, limit);
    var older := sorted[..|sorted| - |result|];
    assert sorted == older + result;
    forall i, j | 0 <= i < |older| && 0 <= j < |result|
      ensures older[i].timestamp <= result[j].timestamp
    {
      assert older[i] == sorted[i] && result[j] == sorted[|older| + j];
    }
  }

  /** The newest-rows query draws only rows of the table, and when it
      returns anything its last row is the latest row of the whole table. */
  lemma LatestEndsWithNewest(rows: seq<Reading>, limit: nat)
    ensures forall x :: x in Latest(rows, limit) ==> x in rows
    ensures Latest(rows, limit) != [] ==>
              forall x :: x in rows ==> x.timestamp <= Latest(rows, limit)[|Latest(rows, limit)| - 1].timestamp
  {
    var sorted := SortByTime(rows);
    var result := Latest(rows, limit);
    var off := |sorted| - |result|;
    assert result == sorted[off..];
    forall x | x in result
      ensures x in rows
    {
      var k :| 0 <= k < |result| && result[k] == x;
      assert x == sorted[off + k];
      SameRows(sorted, rows, x);
    }
    if result != [] {
      SortByTimeSorted(rows);
      var top := sorted[|sorted| - 1];
      assert result[|result| - 1] == top;
      forall x | x in rows
        ensures x.timestamp <= top.timestamp
      {
        SameRows(sorted, rows, x);
        var m :| 0 <= m < |sorted| && sorted[m] == x;
        if m < |sorted| - 1 {
          assert sorted[m].timestamp <= sorted[|sorted| - 1].timestamp;
        }
      }
    }
  }

  // ── Retention ───────────────────────────────────────────────

  /** The rows a prune keeps: stamped at or after the cut-off. */
  function Kept(rows: seq<Reading>, cutoff: real): (r: seq<Reading>)
    ensures forall x :: x in r <==> x in rows && x.timestamp >= cutoff
  {
    if rows == [] then []
    else if rows[0].timestamp >= cutoff then [rows[0]] + Kept(rows[1..], cutoff)
    else Kept(rows[1..], cutoff)
  }

  /** The rows a prune deletes: stamped strictly before the cut-off. */
  function Expired(rows: seq<Reading>, cutoff: real): (r: seq<Reading>)
    ensures forall x :: x in r <==> x in rows && x.timestamp < cutoff
  {
    if rows == [] then []
    else if rows[0].timestamp < cutoff then [rows[0]] + Expired(rows[1..], cutoff)
    else Expired(rows[1..], cutoff)
  }

  /** A prune splits the table: the kept rows and the deleted rows together
      are exactly the rows before, so the number of rows lost is the number
      of rows deleted. */
  lemma {:induction false} PrunePartition(rows: seq<Reading>, cutoff: real)
    ensures multiset(Kept(rows, cutoff)) + multiset(Expired(rows, cutoff)) == multiset(rows)
    ensures |Kept(rows, cutoff)| + |Expired(rows, cutoff)| == |rows|
  {
    if rows != [] {
      PrunePartition(rows[1..], cutoff);
      assert rows == [rows[0]] + rows[1..];
    }
  }

  /** Rows kept by a prune stay in their order; a table already clear of
      expired rows is left as it is. */
  lemma {:induction false} KeptUnchanged(rows: seq<Reading>, cutoff: real)
    requires forall k :: 0 <= k < |rows| ==> rows[k].timestamp >= cutoff
    ensures Kept(rows, cutoff) == rows
    ensures Expired(rows, cutoff) == []
  {
    if rows != [] {
      KeptUnchanged(rows[1..], cutoff);
      assert [rows[0]] + rows[1..] == rows;
    }
  }
}
