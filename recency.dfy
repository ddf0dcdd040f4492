/** The read-back query `SELECT * FROM flights ORDER BY timestamp DESC LIMIT 500`. */
module Recency {
  import opened Schema

  const RECENT_LIMIT: nat := 500

  /** Most recent capture first. */
  ghost predicate NewestFirst(s: seq<Flight>)
  {
    forall i, j | 0 <= i < j < |s| :: s[i].timestamp >= s[j].timestamp
  }

  /** What the query may return for a table holding `rows`: `min(limit, |rows|)` of
      its rows, newest first, and no row left out is newer than a row returned.
      Rows with equal timestamps may come in any order, as SQL leaves it open. */
  ghost predicate IsTopByTimestamp(rows: seq<Flight>, r: seq<Flight>, limit: nat)
  {
    && |r| == (if |rows| < limit then |rows| else limit)
    && NewestFirst(r)
    && multiset(r) <= multiset(rows)
    && forall x, y | x in multiset(rows) - multiset(r) && y in r :: x.timestamp <= y.timestamp
  }

  /** Places `f` into a sequence, before the first row that is not newer than `f`. */
  function Insert(f: Flight, s: seq<Flight>): (r: seq<Flight>)
    ensures multiset(r) == multiset(s) + multiset{f}
    ensures |r| == |s| + 1 && (r[0] == f || (s != [] && r[0] == s[0]))
  {
    if s == [] then [f]
    else if s[0].timestamp <= f.timestamp then [f] + s
    else
      assert s == [s[0]] + s[1..];
      [s[0]] + Insert(f, s[1..])
  }

  /** Inserting into a newest-first sequence keeps it newest first. */
  lemma {:induction false} InsertNewestFirst(f: Flight, s: seq<Flight>)
    requires NewestFirst(s)
    ensures NewestFirst(Insert(f, s))
  {
    if s != [] && s[0].timestamp > f.timestamp {
      var rest := Insert(f, s[1..]);
      InsertNewestFirst(f, s[1..]);
      var r := [s[0]] + rest;
      assert Insert(f, s) == r;
      forall i, j | 0 <= i < j < |r| ensures r[i].timestamp >= r[j].timestamp {
        if i == 0 {
          assert s[0].timestamp >= rest[0].timestamp;
          assert rest[0].timestamp >= rest[j - 1].timestamp;
        } else {
          assert r[i] == rest[i - 1] && r[j] == rest[j - 1];
        }
      }
    }
  }

  /** The rows ordered newest first (a stable insertion sort). */
  function SortNewestFirst(s: seq<Flight>): (r: seq<Flight>)
    ensures NewestFirst(r)
    ensures multiset(r) == multiset(s)
  {
    if s == [] then []
    else
      var rest := SortNewestFirst(s[1..]);
      InsertNewestFirst(s[0], rest);
      assert s == [s[0]] + s[1..];
      Insert(s[0], rest)
  }

  /** The result of the recency query over the table contents `rows`. */
  function Recent(rows: seq<Flight>): (r: seq<Flight>)
    ensures |r| <= RECENT_LIMIT && |r| <= |rows|
    ensures multiset(r) <= multiset(rows)
    ensures NewestFirst(r)
  {
    var sorted := SortNewestFirst(rows);
    var k := if |sorted| < RECENT_LIMIT then |sorted| else RECENT_LIMIT;
    assert sorted == sorted[..k] + sorted[k..];
    sorted[..k]
  }

  /** The first `k` rows of a newest-first sequence are a top-`k` selection of it. */
  lemma PrefixIsTop(sorted: seq<Flight>, k: nat)
    requires NewestFirst(sorted) && k <= |sorted|
    ensures forall x, y | x in multiset(sorted) - multiset(sorted[..k]) && y in sorted[..k] :: x.timestamp <= y.timestamp
  {
    assert sorted == sorted[..k] + sorted[k..];
    assert multiset(sorted) - multiset(sorted[..k]) == multiset(sorted[k..]);
    forall x, y | x in multiset(sorted) - multiset(sorted[..k]) && y in sorted[..k]
      ensures x.timestamp <= y.timestamp
    {
      assert x in sorted[k..];
      var i :| 0 <= i < k && sorted[i] == y;
      var j :| 0 <= j < |sorted| - k && sorted[k..][j] == x;
      assert sorted[k + j] == x;
    }
  }

  /** The query returns at most 500 rows, all from the table, newest first, and
      every row it leaves out is no newer than any row it returns. */
  lemma RecentIsTop(rows: seq<Flight>)
    ensures IsTopByTimestamp(rows, Recent(rows), RECENT_LIMIT)
  {
    var sorted := SortNewestFirst(rows);
    var k := if |sorted| < RECENT_LIMIT then |sorted| else RECENT_LIMIT;
    assert sorted == sorted[..k] + sorted[k..];
    PrefixIsTop(sorted, k);
  }
}
