/** The fixed shape of one aircraft state record: the seventeen upstream columns,
    in the order the OpenSky `states` arrays carry them, plus the capture timestamp
    that the fetcher adds. */
module Schema {

  /** One JSON value as it appears at a position of an upstream state array.
      Numbers are compared only, never computed with, so `real` stands for a float. */
  datatype Cell = Null | Bool(b: bool) | Num(x: real) | Text(s: string) | List(items: seq<Cell>)

  /** The column names given to the positional rows, in upstream order. */
  const COLUMNS: seq<string> := [
    "icao24", "callsign", "origin_country", "time_position", "last_contact",
    "longitude", "latitude", "baro_altitude", "on_ground", "velocity",
    "true_track", "vertical_rate", "sensors", "geo_altitude", "squawk",
    "spi", "position_source"
  ]

  const WIDTH: nat := 17

  /** The seventeen upstream columns of one row, by name. */
  datatype StateVector = StateVector(
    icao24: Cell, callsign: Cell, originCountry: Cell, timePosition: Cell, lastContact: Cell,
    longitude: Cell, latitude: Cell, baroAltitude: Cell, onGround: Cell, velocity: Cell,
    trueTrack: Cell, verticalRate: Cell, sensors: Cell, geoAltitude: Cell, squawk: Cell,
    spi: Cell, positionSource: Cell)

  /** A stored row: the upstream columns and the `timestamp` column. */
  datatype Flight = Flight(state: StateVector, timestamp: int)

  /** The cell of `v` under the column called `name`. */
  function Get(v: StateVector, name: string): Cell
    requires name in COLUMNS
  {
    match name
    case "icao24" => v.icao24
    case "callsign" => v.callsign
    case "origin_country" => v.originCountry
    case "time_position" => v.timePosition
    case "last_contact" => v.lastContact
    case "longitude" => v.longitude
    case "latitude" => v.latitude
    case "baro_altitude" => v.baroAltitude
    case "on_ground" => v.onGround
    case "velocity" => v.velocity
    case "true_track" => v.trueTrack
    case "vertical_rate" => v.verticalRate
    case "sensors" => v.sensors
    case "geo_altitude" => v.geoAltitude
    case "squawk" => v.squawk
    case "spi" => v.spi
    case _ => v.positionSource
  }

  /** Gives a positional row of exactly seventeen values the column names:
      the value at position i lands under the i-th name. */
  function Named(row: seq<Cell>): (v: StateVector)
    requires |row| == WIDTH
    ensures forall i | 0 <= i < WIDTH :: Get(v, COLUMNS[i]) == row[i]
  {
    StateVector(row[0], row[1], row[2], row[3], row[4], row[5], row[6], row[7], row[8],
                row[9], row[10], row[11], row[12], row[13], row[14], row[15], row[16])
  }

  /** The row as a positional array again, in column order. */
  function Positional(v: StateVector): (row: seq<Cell>)
    ensures |row| == WIDTH
  {
    [v.icao24, v.callsign, v.originCountry, v.timePosition, v.lastContact,
     v.longitude, v.latitude, v.baroAltitude, v.onGround, v.velocity,
     v.trueTrack, v.verticalRate, v.sensors, v.geoAltitude, v.squawk,
     v.spi, v.positionSource]
  }

  /** Reading a record by position gives, at position i, its cell under the i-th name. */
  lemma PositionalByName(v: StateVector)
    ensures forall i | 0 <= i < WIDTH :: Positional(v)[i] == Get(v, COLUMNS[i])
  {
  }

  /** Naming loses nothing: a named row read back by position is the input row,
      and a record turned positional and named again is the record. */
  lemma NamedRoundTrip(row: seq<Cell>, v: StateVector)
    requires |row| == WIDTH
    ensures Positional(Named(row)) == row
    ensures Named(Positional(v)) == v
  {
    var r := Positional(Named(row));
    forall i | 0 <= i < WIDTH ensures r[i] == row[i] { }
  }
}
