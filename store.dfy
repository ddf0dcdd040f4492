/** The `flights` table of the local analytical database: created on the first store,
    grown only by appending whole batches, read back by the recency query. */
module Store {
  import opened Schema
  import opened Recency
  import opened Fetcher

  /** Every row has both coordinates: what normalisation guarantees of what it stores. */
  ghost predicate AllLocated(rows: seq<Flight>)
  {
    forall f | f in rows :: HasCoordinates(f.state)
  }

  /** What the read-back query produces: the rows, or the failure of a query against a
      file that has no `flights` table yet. */
  datatype ReadResult = Rows(rows: seq<Flight>) | MissingTable

  class FlightTable {
    /** Whether `CREATE TABLE IF NOT EXISTS flights` has run against the file. */
    var created: bool
    /** The table's rows in insertion order. */
    var rows: seq<Flight>

    ghost predicate Valid()
      reads this
    {
      !created ==> rows == []
    }

    /** Opens the database file, which either has no `flights` table or has one holding
        the rows stored by earlier runs. */
    constructor Open(tablePresent: bool, persisted: seq<Flight>)
      requires tablePresent || persisted == []
      ensures Valid()
      ensures created == tablePresent && rows == persisted
    {
      created := tablePresent;
      rows := persisted;
    }

    /** Stores a batch: creates the table when it is absent, then inserts every row of
        the batch after the rows already there. Nothing stored before changes. */
    method Append(batch: seq<Flight>)
      requires Valid()
      modifies this
      ensures Valid() && created
      ensures rows == old(rows) + batch
    {
      created := true;
      rows := rows + batch;
    }

    /** The recency query: fails when the table was never created; otherwise at most
        500 of the table's rows, newest first, none of the omitted rows newer than
        a returned one. */
    method QueryRecent() returns (r: ReadResult)
      requires Valid()
      ensures r.MissingTable? <==> !created
      ensures r.MissingTable? ==> rows == []
      ensures r.Rows? ==> IsTopByTimestamp(rows, r.rows, RECENT_LIMIT)
      ensures r.Rows? ==> r.rows == Recent(rows)
    {
      if !created {
        return MissingTable;
      }
      RecentIsTop(rows);
      r := Rows(Recent(rows));
    }
  }

  /** The fetch button: fetch a snapshot and, when the batch is not empty, store it.
      An empty batch (a failed fetch included) leaves the table untouched, not even
      created. Returns the number of rows stored. */
  method FetchAndStore(table: FlightTable, p: Payload, now: int) returns (stored: nat)
    requires table.Valid()
    modifies table
    ensures table.Valid()
    ensures stored == |Fetch(p, now)|
    ensures table.rows == old(table.rows) + Fetch(p, now)
    ensures stored == 0 ==> unchanged(table)
    ensures stored > 0 ==> table.created
    ensures AllLocated(old(table.rows)) ==> AllLocated(table.rows)
    ensures forall i | |old(table.rows)| <= i < |table.rows| :: table.rows[i].timestamp == now
  {
    var batch := Fetch(p, now);
    stored := |batch|;
    if batch != [] {
      table.Append(batch);
      assert forall f | f in table.rows :: f in old(table.rows) || f in batch;
    } else {
      assert table.rows == old(table.rows) + batch;
    }
  }
}
