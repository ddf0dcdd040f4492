/** The options of the country selector: "All" followed by the distinct non-null
    `origin_country` values of the recent rows, sorted. */
module Countries {
  import opened Schema
  import Filters

  /** Python's `<` on strings: lexicographic by code point, a proper prefix first. */
  predicate Before(a: string, b: string)
  {
    if a == [] then b != []
    else b != [] && (a[0] < b[0] || (a[0] == b[0] && Before(a[1..], b[1..])))
  }

  lemma {:induction false} BeforeIrreflexive(a: string)
    ensures !Before(a, a)
  {
    if a != [] { BeforeIrreflexive(a[1..]); }
  }

  lemma {:induction false} BeforeTransitive(a: string, b: string, c: string)
    requires Before(a, b) && Before(b, c)
    ensures Before(a, c)
  {
    if a != [] && a[0] == b[0] && b[0] == c[0] {
      BeforeTransitive(a[1..], b[1..], c[1..]);
    }
  }

  lemma {:induction false} BeforeTotal(a: string, b: string)
    requires a != b
    ensures Before(a, b) || Before(b, a)
  {
    if a != [] && b != [] && a[0] == b[0] {
      assert a == [a[0]] + a[1..] && b == [b[0]] + b[1..];
      BeforeTotal(a[1..], b[1..]);
    }
  }

  /** Sorted and without repetitions. */
  predicate StrictlyAscending(s: seq<string>)
  {
    forall i, j | 0 <= i < j < |s| :: Before(s[i], s[j])
  }

  /** A strictly ascending list has no repetitions. */
  lemma AscendingIsDistinct(s: seq<string>)
    requires StrictlyAscending(s)
    ensures forall i, j | 0 <= i < j < |s| :: s[i] != s[j]
  {
    forall i, j | 0 <= i < j < |s| ensures s[i] != s[j] {
      BeforeIrreflexive(s[i]);
    }
  }

  /** Adds `x` to a strictly ascending list unless it is already there. */
  function InsertDistinct(x: string, s: seq<string>): (r: seq<string>)
    requires StrictlyAscending(s)
    ensures StrictlyAscending(r)
    ensures forall y :: y in r <==> y == x || y in s
  {
    if s == [] then [x]
    else if x == s[0] then s
    else if Before(x, s[0]) then
      assert forall k | 0 <= k < |s| :: Before(x, s[k]) by {
        forall k | 0 <= k < |s| ensures Before(x, s[k]) {
          if k > 0 { BeforeTransitive(x, s[0], s[k]); }
        }
      }
      [x] + s
    else
      BeforeTotal(x, s[0]);
      var rest := InsertDistinct(x, s[1..]);
      assert forall k | 0 <= k < |rest| :: Before(s[0], rest[k]) by {
        forall k | 0 <= k < |rest| ensures Before(s[0], rest[k]) {
          assert rest[k] in rest;
          if rest[k] != x {
            var m :| 0 <= m < |s[1..]| && s[1..][m] == rest[k];
            assert s[m + 1] == rest[k];
          }
        }
      }
      [s[0]] + rest
  }

  /** `sorted(set(names))`: the distinct names in ascending order. */
  function SortedDistinct(names: seq<string>): (r: seq<string>)
    ensures StrictlyAscending(r)
    ensures forall y :: y in r <==> y in names
  {
    if names == [] then []
    else
      var rest := SortedDistinct(names[..|names| - 1]);
      assert names == names[..|names| - 1] + [names[|names| - 1]];
      InsertDistinct(names[|names| - 1], rest)
  }

  /** `recent_df["origin_country"].dropna()`: the countries that are present, in row order. */
  function PresentCountries(rows: seq<Flight>): (names: seq<string>)
    ensures |names| <= |rows|
  {
    if rows == [] then []
    else
      var last := rows[|rows| - 1].state.originCountry;
      PresentCountries(rows[..|rows| - 1]) + (if last.Text? then [last.s] else [])
  }

  lemma {:induction false} PresentCountriesMembership(rows: seq<Flight>, name: string)
    ensures name in PresentCountries(rows) <==> exists i | 0 <= i < |rows| :: rows[i].state.originCountry == Text(name)
  {
    if rows != [] {
      var init := rows[..|rows| - 1];
      PresentCountriesMembership(init, name);
      if exists i | 0 <= i < |rows| :: rows[i].state.originCountry == Text(name) {
        var i :| 0 <= i < |rows| && rows[i].state.originCountry == Text(name);
        if i < |init| { assert init[i] == rows[i]; }
      }
      if exists i | 0 <= i < |init| :: init[i].state.originCountry == Text(name) {
        var i :| 0 <= i < |init| && init[i].state.originCountry == Text(name);
        assert rows[i] == init[i];
      }
    }
  }

  /** The selector's options for the recent rows. */
  function CountryOptions(recent: seq<Flight>): (opts: seq<string>)
    ensures |opts| >= 1 && opts[0] == Filters.ALL
    ensures StrictlyAscending(opts[1..])
  {
    [Filters.ALL] + SortedDistinct(PresentCountries(recent))
  }

  /** The options start with "All"; the rest are sorted without repetitions, and a name
      is among them if and only if some recent row has it as its origin country. */
  lemma CountryOptionsSpec(recent: seq<Flight>, name: string)
    ensures var opts := CountryOptions(recent);
      && |opts| >= 1 && opts[0] == Filters.ALL
      && StrictlyAscending(opts[1..])
      && (forall i, j | 1 <= i < j < |opts| :: opts[i] != opts[j])
      && (name in opts[1..] <==> exists i | 0 <= i < |recent| :: recent[i].state.originCountry == Text(name))
  {
    var opts := CountryOptions(recent);
    PresentCountriesMembership(recent, name);
    assert opts[1..] == SortedDistinct(PresentCountries(recent));
    AscendingIsDistinct(opts[1..]);
    forall i, j | 1 <= i < j < |opts| ensures opts[i] != opts[j] {
      assert opts[i] == opts[1..][i - 1] && opts[j] == opts[1..][j - 1];
    }
  }
}
