/** Normalisation of one upstream snapshot into a batch of flight rows: the positional
    `states` arrays get the seventeen column names, rows without a latitude or a
    longitude are dropped, and every surviving row is stamped with the capture time. */
module Fetcher {
  import opened Schema
  import opened Masks

  /** What the upstream call produced, once its body was decoded. */
  datatype Payload =
    | Unavailable                   // the request raised, the body was not JSON, or it had no `states` key
    | StatesNull                    // the body held `"states": null`
    | States(rows: seq<seq<Cell>>)  // the body held an array of positional state arrays

  /** The length of the longest row: the number of columns the frame constructor sees. */
  function MaxWidth(rows: seq<seq<Cell>>): (w: nat)
    ensures forall i | 0 <= i < |rows| :: |rows[i]| <= w
    ensures rows != [] ==> exists i | 0 <= i < |rows| :: |rows[i]| == w
    ensures rows == [] ==> w == 0
  {
    if rows == [] then 0
    else
      var w := MaxWidth(rows[..|rows| - 1]);
      if |rows[|rows| - 1]| > w then |rows[|rows| - 1]| else w
  }

  /** The frame constructor accepts the rows with the seventeen column names: there
      are none, or the longest has exactly seventeen values. Otherwise it raises. */
  predicate FrameAccepts(rows: seq<seq<Cell>>)
  {
    rows == [] || MaxWidth(rows) == WIDTH
  }

  /** No row is longer than the schema. */
  predicate WithinWidth(rows: seq<seq<Cell>>)
  {
    forall i | 0 <= i < |rows| :: |rows[i]| <= WIDTH
  }

  /** A row shorter than the widest one is completed with nulls. */
  function Pad(row: seq<Cell>): (r: seq<Cell>)
    requires |row| <= WIDTH
    ensures |r| == WIDTH
    ensures forall i | 0 <= i < WIDTH :: r[i] == if i < |row| then row[i] else Null
  {
    row + seq(WIDTH - |row|, _ => Null)
  }

  /** The positional rows as named state vectors, in order: each one, read back by
      position, is its padded raw row. */
  function Frame(rows: seq<seq<Cell>>): (vs: seq<StateVector>)
    requires WithinWidth(rows)
    ensures |vs| == |rows|
    ensures forall i | 0 <= i < |rows| :: Positional(vs[i]) == Pad(rows[i])
  {
    var vs := seq(|rows|, i requires 0 <= i < |rows| => Named(Pad(rows[i])));
    assert forall i | 0 <= i < |rows| :: Positional(vs[i]) == Pad(rows[i]) by {
      forall i | 0 <= i < |rows| ensures Positional(vs[i]) == Pad(rows[i]) {
        NamedRoundTrip(Pad(rows[i]), vs[i]);
      }
    }
    vs
  }

  /** The mask of `dropna(subset=["latitude", "longitude"])`. */
  predicate HasCoordinates(v: StateVector)
  {
    !v.latitude.Null? && !v.longitude.Null?
  }

  /** The mask reads exactly the columns named "latitude" and "longitude". */
  lemma HasCoordinatesByName(v: StateVector)
    ensures HasCoordinates(v) <==> Get(v, "latitude") != Null && Get(v, "longitude") != Null
  {
  }

  /** Adds the `timestamp` column, the same value on every row. */
  function Stamp(vs: seq<StateVector>, now: int): (r: seq<Flight>)
    ensures |r| == |vs|
    ensures forall i | 0 <= i < |vs| :: r[i].state == vs[i] && r[i].timestamp == now
  {
    seq(|vs|, i requires 0 <= i < |vs| => Flight(vs[i], now))
  }

  /** The batch built from an accepted array of positional rows. */
  function Normalise(rows: seq<seq<Cell>>, now: int): (batch: seq<Flight>)
    requires WithinWidth(rows)
    ensures |batch| <= |rows|
    ensures forall f | f in batch :: f.timestamp == now && HasCoordinates(f.state)
  {
    Stamp(Keep(Frame(rows), HasCoordinates), now)
  }

  /** One fetch: the batch of rows captured at `now`, or the empty batch when the
      call failed, `states` was null, or the rows did not fit the seventeen columns. */
  function Fetch(p: Payload, now: int): (batch: seq<Flight>)
    ensures forall f | f in batch :: f.timestamp == now && HasCoordinates(f.state)
    ensures p.States? ==> |batch| <= |p.rows|
    ensures !p.States? ==> batch == []
    ensures p.States? && !FrameAccepts(p.rows) ==> batch == []
  {
    match p
    case States(rows) => if FrameAccepts(rows) then Normalise(rows, now) else []
    case _ => []
  }

  /** The batch is exactly the accepted rows whose coordinates are both present,
      named and stamped, in their upstream order. */
  lemma FetchSelectsRows(rows: seq<seq<Cell>>, now: int)
    requires FrameAccepts(rows)
    ensures WithinWidth(rows)
    ensures var batch, ix := Fetch(States(rows), now), Positions(Frame(rows), HasCoordinates);
      && |batch| == |ix|
      && (forall j | 0 <= j < |ix| :: ix[j] < |rows| && batch[j] == Flight(Named(Pad(rows[ix[j]])), now))
      && (forall j, k | 0 <= j < k < |ix| :: ix[j] < ix[k])
      && (forall i | 0 <= i < |rows| :: i in ix <==> HasCoordinates(Named(Pad(rows[i]))))
  {
    var frame := Frame(rows);
    KeepSelects(frame, HasCoordinates);
    var kept, ix := Keep(frame, HasCoordinates), Positions(frame, HasCoordinates);
    var batch := Fetch(States(rows), now);
    assert batch == Stamp(kept, now);
    forall j | 0 <= j < |ix| ensures batch[j] == Flight(Named(Pad(rows[ix[j]])), now) {
      assert batch[j] == Flight(kept[j], now);
      assert kept[j] == frame[ix[j]];
    }
    forall i | 0 <= i < |rows| ensures i in ix <==> HasCoordinates(Named(Pad(rows[i]))) {
      assert frame[i] == Named(Pad(rows[i]));
    }
  }

  /** A raw row lacks a coordinate: it has no sixth or seventh value, or one of them is null. */
  predicate LacksCoordinates(row: seq<Cell>)
  {
    |row| <= 6 || row[5] == Null || row[6] == Null
  }

  /** The number of raw rows that lack a coordinate: an independent count, on the raw
      positions 5 and 6, of the rows `dropna` removes (`KeptCount` relates the two). */
  function CountLacking(rows: seq<seq<Cell>>): (n: nat)
    ensures n <= |rows|
  {
    if rows == [] then 0
    else CountLacking(rows[..|rows| - 1]) + (if LacksCoordinates(rows[|rows| - 1]) then 1 else 0)
  }

  /** The frame of a snapshot is the frame of all rows but the last, then the last row named. */
  lemma FrameSnoc(rows: seq<seq<Cell>>)
    requires WithinWidth(rows) && rows != []
    ensures WithinWidth(rows[..|rows| - 1])
    ensures Frame(rows) == Frame(rows[..|rows| - 1]) + [Named(Pad(rows[|rows| - 1]))]
  {
    var init := rows[..|rows| - 1];
    assert WithinWidth(init);
    var frame, front := Frame(rows), Frame(init);
    forall i | 0 <= i < |init| ensures frame[i] == front[i] { }
  }

  /** `dropna` keeps a padded row exactly when the raw row has both coordinates. */
  lemma PaddedCoordinates(row: seq<Cell>)
    requires |row| <= WIDTH
    ensures HasCoordinates(Named(Pad(row))) <==> !LacksCoordinates(row)
  {
    var padded := Pad(row);
    assert padded[5] == (if 5 < |row| then row[5] else Null);
    assert padded[6] == (if 6 < |row| then row[6] else Null);
  }

  lemma {:induction false} KeptCount(rows: seq<seq<Cell>>)
    requires WithinWidth(rows)
    ensures |Keep(Frame(rows), HasCoordinates)| + CountLacking(rows) == |rows|
  {
    if rows != [] {
      var init, last := rows[..|rows| - 1], rows[|rows| - 1];
      FrameSnoc(rows);
      KeptCount(init);
      KeepConcat(Frame(init), [Named(Pad(last))], HasCoordinates);
      PaddedCoordinates(last);
    }
  }

  /** Normalisation shrinks an accepted snapshot by exactly the number of rows that
      lack a coordinate. */
  lemma FetchCount(rows: seq<seq<Cell>>, now: int)
    requires FrameAccepts(rows)
    ensures |Fetch(States(rows), now)| == |rows| - CountLacking(rows)
  {
    KeptCount(rows);
  }
}
