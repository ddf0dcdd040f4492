/** The dashboard's filter block over the recent rows: a country, a minimum barometric
    altitude and an airborne-only switch, each a boolean mask, applied in turn. */
module Filters {
  import opened Schema
  import opened Masks

  /** The choice that switches the country filter off. */
  const ALL: string := "All"

  datatype Criteria = Criteria(country: string, minAltitude: int, airborneOnly: bool)

  /** `origin_country == country`: a null or non-text country never equals it. */
  predicate CountryIs(f: Flight, country: string)
    ensures CountryIs(f, country) ==> Get(f.state, "origin_country") == Text(country)
    ensures Get(f.state, "origin_country") == Null ==> !CountryIs(f, country)
  {
    f.state.originCountry == Text(country)
  }

  /** `baro_altitude >= min_alt`: a null altitude fails the comparison. */
  predicate AltitudeAtLeast(f: Flight, minAltitude: int)
    ensures Get(f.state, "baro_altitude") == Null ==> !AltitudeAtLeast(f, minAltitude)
    ensures forall x: real :: Get(f.state, "baro_altitude") == Num(x) ==> (AltitudeAtLeast(f, minAltitude) <==> x >= minAltitude as real)
  {
    f.state.baroAltitude.Num? && f.state.baroAltitude.x >= minAltitude as real
  }

  /** `on_ground == False`: a null never equals False. */
  predicate Airborne(f: Flight)
    ensures Airborne(f) <==> Get(f.state, "on_ground") == Bool(false)
  {
    f.state.onGround == Bool(false)
  }

  /** The filter block as written: the country mask unless "All" is chosen, then the
      altitude mask, then the airborne mask when the switch is on. */
  function ApplyFilters(rows: seq<Flight>, c: Criteria): (r: seq<Flight>)
    ensures |r| <= |rows|
    ensures forall f | f in r :: f in rows && Admits(c, f)
  {
    var byCountry := if c.country != ALL then Keep(rows, f => CountryIs(f, c.country)) else rows;
    var byAltitude := Keep(byCountry, f => AltitudeAtLeast(f, c.minAltitude));
    if c.airborneOnly then Keep(byAltitude, Airborne) else byAltitude
  }

  /** The three conditions a row must meet together. */
  predicate Admits(c: Criteria, f: Flight)
  {
    && (c.country == ALL || CountryIs(f, c.country))
    && AltitudeAtLeast(f, c.minAltitude)
    && (!c.airborneOnly || Airborne(f))
  }

  /** The chain of masks is one mask of the conjunction of the three conditions. */
  lemma FilterIsOneMask(rows: seq<Flight>, c: Criteria)
    ensures ApplyFilters(rows, c) == Keep(rows, f => Admits(c, f))
  {
    var country := f => c.country == ALL || CountryIs(f, c.country);
    var altitude := f => AltitudeAtLeast(f, c.minAltitude);
    var both := f => country(f) && altitude(f);
    var byCountry := if c.country != ALL then Keep(rows, f => CountryIs(f, c.country)) else rows;
    if c.country != ALL {
      KeepKeep(rows, f => CountryIs(f, c.country), altitude, both);
    } else {
      KeepKeep(rows, country, altitude, both);
      KeepIsIdentity(rows, country);
    }
    assert Keep(byCountry, altitude) == Keep(rows, both);
    if c.airborneOnly {
      KeepKeep(rows, both, Airborne, f => Admits(c, f));
    } else {
      KeepKeep(rows, both, f => true, f => Admits(c, f));
      KeepIsIdentity(Keep(rows, both), f => true);
    }
  }

  /** The filtered rows are exactly the input rows that meet all three conditions,
      in their input order: a subsequence selected by increasing positions. */
  lemma FilterSelects(rows: seq<Flight>, c: Criteria)
    ensures var r, ix := ApplyFilters(rows, c), Positions(rows, f => Admits(c, f));
      && |r| == |ix|
      && (forall j | 0 <= j < |ix| :: ix[j] < |rows| && r[j] == rows[ix[j]])
      && (forall j, k | 0 <= j < k < |ix| :: ix[j] < ix[k])
      && (forall i | 0 <= i < |rows| :: i in ix <==> Admits(c, rows[i]))
  {
    FilterIsOneMask(rows, c);
    KeepSelects(rows, f => Admits(c, f));
  }

  /** A row is in the result if and only if it is in the input and meets all three conditions. */
  lemma FilterMembership(rows: seq<Flight>, c: Criteria, f: Flight)
    ensures f in ApplyFilters(rows, c) <==> f in rows && Admits(c, f)
  {
    FilterIsOneMask(rows, c);
    KeepMembership(rows, g => Admits(c, g), f);
  }

  /** Filtering an already filtered table with the same choices changes nothing. */
  lemma FilterIdempotent(rows: seq<Flight>, c: Criteria)
    ensures ApplyFilters(ApplyFilters(rows, c), c) == ApplyFilters(rows, c)
  {
    FilterIsOneMask(rows, c);
    FilterIsOneMask(ApplyFilters(rows, c), c);
    KeepIdempotent(rows, f => Admits(c, f));
  }

  /** Whatever order the three masks run in, they select the same rows. */
  lemma FilterOrderIrrelevant(rows: seq<Flight>, c: Criteria)
    ensures var altitude := f => AltitudeAtLeast(f, c.minAltitude);
            var air := f => !c.airborneOnly || Airborne(f);
            var country := f => c.country == ALL || CountryIs(f, c.country);
      Keep(Keep(Keep(rows, air), altitude), country) == ApplyFilters(rows, c)
  {
    var altitude := f => AltitudeAtLeast(f, c.minAltitude);
    var air := f => !c.airborneOnly || Airborne(f);
    var country := f => c.country == ALL || CountryIs(f, c.country);
    var airAlt := f => air(f) && altitude(f);
    KeepKeep(rows, air, altitude, airAlt);
    KeepKeep(rows, airAlt, country, f => Admits(c, f));
    FilterIsOneMask(rows, c);
  }

  /** With "All", altitude 0 and the switch off, the filter is the identity exactly when
      every row has a non-null, non-negative altitude. */
  lemma DefaultFilterIdentityIff(rows: seq<Flight>)
    ensures ApplyFilters(rows, Criteria(ALL, 0, false)) == rows
        <==> forall i | 0 <= i < |rows| :: AltitudeAtLeast(rows[i], 0)
  {
    var c := Criteria(ALL, 0, false);
    FilterIsOneMask(rows, c);
    KeepIsIdentity(rows, f => Admits(c, f));
  }

  /** A row with a null altitude is filtered out of any table, whatever the choices. */
  lemma NullAltitudeExcluded(rows: seq<Flight>, c: Criteria, f: Flight)
    requires f.state.baroAltitude == Null
    ensures f !in ApplyFilters(rows, c)
  {
    FilterMembership(rows, c, f);
  }
}
