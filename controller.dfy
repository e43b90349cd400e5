/**
 * The aggregation and response logic of the gold-medal controller: the
 * sort-key dispatch for country summaries and for a country's medal list,
 * the medal-count re-sort, and the per-country detail statistics.
 * Sort keys arrive lower-cased and country names capitalised by the
 * request handlers, which are not part of this model.
 */
module GoldMedalController {
  import opened Wrappers
  import opened Sorting
  import opened Orders
  import opened Model
  import opened Repositories

  // ---- Country medal list ----

  /**
   * A country's medals ordered by the requested key and direction; the
   * repository does the ordering, and an unknown key gives an empty list.
   */
  method GetCountryMedalsListResponse(ds: Dataset, countryName: string, sortBy: string, ascendingOrder: bool)
    returns (r: CountryMedalsListResponse)
    ensures sortBy == "year" ==> r.medals == GetByCountryOrderBy(ds.medals, countryName, ByYear, ascendingOrder)
    ensures sortBy == "season" ==> r.medals == GetByCountryOrderBy(ds.medals, countryName, BySeason, ascendingOrder)
    ensures sortBy == "city" ==> r.medals == GetByCountryOrderBy(ds.medals, countryName, ByCity, ascendingOrder)
    ensures sortBy == "name" ==> r.medals == GetByCountryOrderBy(ds.medals, countryName, ByAthleteName, ascendingOrder)
    ensures sortBy == "event" ==> r.medals == GetByCountryOrderBy(ds.medals, countryName, ByEvent, ascendingOrder)
    ensures sortBy !in {"year", "season", "city", "name", "event"} ==> r.medals == []
  {
    var medalsList: seq<GoldMedal>;
    if sortBy == "year" {
      medalsList := GetByCountryOrderBy(ds.medals, countryName, ByYear, ascendingOrder);
    } else if sortBy == "season" {
      medalsList := GetByCountryOrderBy(ds.medals, countryName, BySeason, ascendingOrder);
    } else if sortBy == "city" {
      medalsList := GetByCountryOrderBy(ds.medals, countryName, ByCity, ascendingOrder);
    } else if sortBy == "name" {
      medalsList := GetByCountryOrderBy(ds.medals, countryName, ByAthleteName, ascendingOrder);
    } else if sortBy == "event" {
      medalsList := GetByCountryOrderBy(ds.medals, countryName, ByEvent, ascendingOrder);
    } else {
      medalsList := [];
    }
    r := CountryMedalsListResponse(medalsList);
  }

  /**
   * Asking for the year order ascending and then descending lists the same
   * medals, the first by ascending and the second by descending year.
   */
  lemma YearListingsSameRecords(ds: Dataset, countryName: string)
    ensures multiset(GetByCountryOrderBy(ds.medals, countryName, ByYear, true))
         == multiset(GetByCountryOrderBy(ds.medals, countryName, ByYear, false))
    ensures Sorted(GetByCountryOrderBy(ds.medals, countryName, ByYear, true), Year, IntLe)
    ensures Sorted(GetByCountryOrderBy(ds.medals, countryName, ByYear, false), Year, (a: int, b: int) => b <= a)
  {
    var own := OfCountry(ds.medals, countryName);
    var down := Direction(IntLe, false);
    NumericPreorders();
    DirectionPreorder(IntLe, false);
    SortBySorted(own, Year, IntLe);
    SortBySorted(own, Year, down);
    var r := SortBy(own, Year, down);
    forall i, j | 0 <= i < j < |r| ensures Year(r[j]) <= Year(r[i]) {
      assert down(Year(r[i]), Year(r[j]));
    }
  }

  // ---- Country details ----

  /** One season's block of statistics from its year-ascending wins and the season's event total. */
  function SeasonStatsOf(wins: seq<GoldMedal>, totalEvents: int): SeasonStats
  {
    var numberWins := if wins != [] then Some(|wins|) else None;
    var percentage :=
      if totalEvents != 0 && numberWins.Some? then Some(|wins| as real / totalEvents as real) else None;
    var yearFirstWin := if wins != [] then Some(wins[0].year) else None;
    SeasonStats(numberWins, percentage, yearFirstWin)
  }

  /** The statistics block for one season, from the repository queries the controller issues. */
  function SeasonStatsFor(ds: Dataset, countryName: string, season: string): SeasonStats
  {
    var wins := GetByCountryAndSeasonOrderByYearAsc(ds.medals, countryName, season);
    var totalEvents := CountBySeason(ds.medals, season);
    SeasonStatsOf(wins, totalEvents)
  }

  /** The detail response for a country name. */
  function GetCountryDetailsResponse(ds: Dataset, countryName: string): (r: CountryDetailsResponse)
    ensures r.name == countryName
    ensures r.NotFound? <==> forall c :: c in ds.countries ==> c.name != countryName
    ensures r.Found? ==>
      Country(countryName, r.gdp, r.population) in ds.countries &&
      r.medals == CountByCountry(ds.medals, countryName) &&
      r.summer == SeasonStatsFor(ds, countryName, SUMMER) &&
      r.winter == SeasonStatsFor(ds, countryName, WINTER)
    ensures r.Found? ==>
      r.numberEventsWonByFemaleAthletes == CountByCountryAndGender(ds.medals, countryName, WOMEN) >= 0 &&
      r.numberEventsWonByMaleAthletes == CountByCountryAndGender(ds.medals, countryName, MEN) >= 0
  {
    var countryOptional := GetByName(ds.countries, countryName);
    if countryOptional.None? then
      NotFound(countryName)
    else
      var country := countryOptional.value;
      Found(
        countryName,
        country.gdp,
        country.population,
        CountByCountry(ds.medals, countryName),
        SeasonStatsFor(ds, countryName, SUMMER),
        SeasonStatsFor(ds, countryName, WINTER),
        CountByCountryAndGender(ds.medals, countryName, WOMEN),
        CountByCountryAndGender(ds.medals, countryName, MEN))
  }

  /**
   * The win count is absent exactly when the country has no medal in the
   * season; otherwise it is the number of such medals, at least one.
   */
  lemma WinCountPresence(ds: Dataset, countryName: string, season: string)
    ensures SeasonStatsFor(ds, countryName, season).numberWins.None?
        <==> forall m :: m in ds.medals ==> !(m.country == countryName && m.season == season)
    ensures SeasonStatsFor(ds, countryName, season).numberWins.Some? ==>
      SeasonStatsFor(ds, countryName, season).numberWins.value == |OfCountryAndSeason(ds.medals, countryName, season)| >= 1
  {
    SeasonWinsOrdered(ds.medals, countryName, season);
    var wins := GetByCountryAndSeasonOrderByYearAsc(ds.medals, countryName, season);
    if wins != [] {
      assert wins[0] in wins;
    }
  }

  /**
   * The share of the season's events is present only when the win count is
   * present and the season has events, so there is no division by zero; it
   * is then the win count over the season total and lies in (0, 1].
   */
  lemma RatioGuarded(ds: Dataset, countryName: string, season: string)
    ensures var st := SeasonStatsFor(ds, countryName, season);
      st.percentageTotalWins.Some? <==> st.numberWins.Some? && CountBySeason(ds.medals, season) != 0
    ensures var st := SeasonStatsFor(ds, countryName, season);
      st.percentageTotalWins.Some? ==>
        st.percentageTotalWins.value == st.numberWins.value as real / CountBySeason(ds.medals, season) as real &&
        0.0 < st.percentageTotalWins.value <= 1.0
  {
    SeasonWinsOrdered(ds.medals, countryName, season);
    CountryShareOfSeason(ds.medals, countryName, season);
    var wins := GetByCountryAndSeasonOrderByYearAsc(ds.medals, countryName, season);
    var total := CountBySeason(ds.medals, season);
    if wins != [] && total != 0 {
      ShareInUnitInterval(|wins|, total);
    }
  }

  lemma ShareInUnitInterval(part: int, whole: int)
    requires 0 < part <= whole
    ensures 0.0 < part as real / whole as real <= 1.0
  {
    var q := part as real / whole as real;
    assert q * whole as real == part as real;
    assert (1.0 - q) * whole as real == (whole - part) as real >= 0.0;
  }

  /**
   * The first-win year is present exactly when the win count is; it is the
   * year of one of the country's medals in the season and no such medal is
   * earlier.
   */
  lemma FirstWinIsEarliest(ds: Dataset, countryName: string, season: string)
    ensures var st := SeasonStatsFor(ds, countryName, season);
      st.yearFirstWin.Some? <==> st.numberWins.Some?
    ensures var st := SeasonStatsFor(ds, countryName, season);
      st.yearFirstWin.Some? ==>
        (exists m :: m in ds.medals && m.country == countryName && m.season == season && m.year == st.yearFirstWin.value) &&
        (forall m :: m in ds.medals && m.country == countryName && m.season == season ==> st.yearFirstWin.value <= m.year)
  {
    SeasonWinsOrdered(ds.medals, countryName, season);
    var wins := GetByCountryAndSeasonOrderByYearAsc(ds.medals, countryName, season);
    if wins != [] {
      assert wins[0] in wins;
      forall m | m in ds.medals && m.country == countryName && m.season == season
        ensures wins[0].year <= m.year
      {
        assert m in wins;
        var j :| 0 <= j < |wins| && wins[j] == m;
        if j > 0 {
          assert IntLe(Year(wins[0]), Year(wins[j]));
        }
      }
    }
  }

  /**
   * A found country with no wins in a season has all three of that season's
   * statistics absent, while its gender counts are present, possibly 0.
   */
  lemma NoWinsExample()
    ensures var ds := Dataset([Country("Norway", None, None)],
                              [GoldMedal("Norway", 1994, "Lillehammer", WINTER, "Dæhlie", MEN, "Skiing")]);
      var r := GetCountryDetailsResponse(ds, "Norway");
      r.Found? && r.summer == SeasonStats(None, None, None) &&
      r.winter == SeasonStats(Some(1), Some(1.0), Some(1994)) &&
      r.numberEventsWonByFemaleAthletes == 0 && r.numberEventsWonByMaleAthletes == 1
  {
    var m := GoldMedal("Norway", 1994, "Lillehammer", WINTER, "Dæhlie", MEN, "Skiing");
    var ds := Dataset([Country("Norway", None, None)], [m]);
    assert OfCountryAndSeason(ds.medals, "Norway", SUMMER) == [];
    assert OfCountryAndSeason(ds.medals, "Norway", WINTER) == [m];
    assert OfSeason(ds.medals, WINTER) == [m];
    assert OfCountryAndGender(ds.medals, "Norway", WOMEN) == [];
    assert OfCountryAndGender(ds.medals, "Norway", MEN) == [m];
  }

  // ---- Country summaries ----

  /** Each country paired with its medal count, in the given order. */
  function WithMedalCounts(ds: Dataset, countries: seq<Country>): seq<CountrySummary>
  {
    seq(|countries|, i requires 0 <= i < |countries| =>
      CountrySummary(countries[i], CountByCountry(ds.medals, countries[i].name)))
  }

  /**
   * Builds the summary list by appending, for each country in the given
   * order, the country and its medal count.
   */
  method GetCountrySummariesWithMedalCount(ds: Dataset, countries: seq<Country>) returns (r: seq<CountrySummary>)
    ensures |r| == |countries|
    ensures forall i :: 0 <= i < |r| ==>
      r[i].country == countries[i] && r[i].medals == CountByCountry(ds.medals, countries[i].name)
    ensures r == WithMedalCounts(ds, countries)
  {
    var countrySummaries: seq<CountrySummary> := [];
    var i := 0;
    while i < |countries|
      invariant 0 <= i <= |countries|
      invariant countrySummaries == WithMedalCounts(ds, countries[..i])
    {
      var country := countries[i];
      var goldMedalCount := CountByCountry(ds.medals, country.name);
      countrySummaries := countrySummaries + [CountrySummary(country, goldMedalCount)];
      i := i + 1;
    }
    assert countries[..i] == countries;
    r := countrySummaries;
  }

  /** Ordered by medal count, ascending or descending. */
  ghost predicate SortedByMedals(s: seq<CountrySummary>, ascendingOrder: bool)
  {
    forall i, j :: 0 <= i < j < |s| ==>
      if ascendingOrder then s[i].medals <= s[j].medals else s[i].medals >= s[j].medals
  }

  /**
   * The stable re-sort by medal count: a permutation of the input, ordered
   * by count in the requested direction, where summaries with equal counts
   * keep their input order.
   */
  function SortByMedalCount(countrySummaries: seq<CountrySummary>, ascendingOrder: bool): (r: seq<CountrySummary>)
    ensures multiset(r) == multiset(countrySummaries)
    ensures SortedByMedals(r, ascendingOrder)
    ensures forall k :: KeyFilter(r, Medals, k) == KeyFilter(countrySummaries, Medals, k)
  {
    var le := Direction(IntLe, ascendingOrder);
    var r := SortBy(countrySummaries, Medals, le);
    NumericPreorders();
    DirectionPreorder(IntLe, ascendingOrder);
    SortBySorted(countrySummaries, Medals, le);
    forall k ensures KeyFilter(r, Medals, k) == KeyFilter(countrySummaries, Medals, k) {
      SortByStable(countrySummaries, Medals, le, k);
    }
    r
  }

  /** The ASCII case-insensitive comparison of `String.equalsIgnoreCase`. */
  predicate EqualsIgnoreCase(a: string, b: string)
  {
    |a| == |b| && forall i :: 0 <= i < |a| ==> a[i] == b[i] || UpperAscii(a[i]) == UpperAscii(b[i])
  }

  function UpperAscii(c: char): char
  {
    if 'a' <= c <= 'z' then (c as int - 32) as char else c
  }

  /** A key that triggers no listing order of its own and no re-sort. */
  predicate UnrecognizedSummaryKey(sortBy: string)
  {
    sortBy !in {"name", "gdp", "population"} && !EqualsIgnoreCase(sortBy, "medals")
  }

  /**
   * The country summaries for a sort key and direction. `name`, `gdp` and
   * `population` take the repository's order; `medals` takes the name order
   * and re-sorts it stably by count, so ties stay in name order; any other
   * key gives the name order, whatever the direction.
   */
  method GetCountrySummaries(ds: Dataset, sortBy: string, ascendingOrder: bool) returns (r: seq<CountrySummary>)
    ensures sortBy == "name" ==> r == WithMedalCounts(ds, GetAllByOrderBy(ds.countries, ByName, ascendingOrder))
    ensures sortBy == "gdp" ==> r == WithMedalCounts(ds, GetAllByOrderBy(ds.countries, ByGdp, ascendingOrder))
    ensures sortBy == "population" ==> r == WithMedalCounts(ds, GetAllByOrderBy(ds.countries, ByPopulation, ascendingOrder))
    ensures EqualsIgnoreCase(sortBy, "medals") ==>
      var staging := WithMedalCounts(ds, GetAllByOrderBy(ds.countries, ByName, true));
      multiset(r) == multiset(staging) &&
      SortedByMedals(r, ascendingOrder) &&
      (forall k :: KeyFilter(r, Medals, k) == KeyFilter(staging, Medals, k)) &&
      TiesOrdered(r, Medals, SummaryName, StrLe)
    ensures UnrecognizedSummaryKey(sortBy) ==> r == WithMedalCounts(ds, GetAllByOrderBy(ds.countries, ByName, true))
  {
    var countries: seq<Country>;
    if sortBy == "name" {
      countries := GetAllByOrderBy(ds.countries, ByName, ascendingOrder);
    } else if sortBy == "gdp" {
      countries := GetAllByOrderBy(ds.countries, ByGdp, ascendingOrder);
    } else if sortBy == "population" {
      countries := GetAllByOrderBy(ds.countries, ByPopulation, ascendingOrder);
    } else {
      // "medals" and every other key
      countries := GetAllByOrderBy(ds.countries, ByName, true);
    }

    var countrySummaries := GetCountrySummariesWithMedalCount(ds, countries);

    if EqualsIgnoreCase(sortBy, "medals") {
      assert sortBy !in {"name", "gdp", "population"};
      StagingSortedByName(ds);
      NumericPreorders();
      DirectionPreorder(IntLe, ascendingOrder);
      SortByKeepsSecondaryOrder(countrySummaries, Medals, Direction(IntLe, ascendingOrder), SummaryName, StrLe);
      countrySummaries := SortByMedalCount(countrySummaries, ascendingOrder);
    }

    r := countrySummaries;
  }

  /**
   * When no two countries share a name, the `name` summaries for descending
   * order are the ascending ones reversed, each still with its own count.
   */
  lemma NameSummariesReverse(ds: Dataset)
    requires forall c, d :: c in ds.countries && d in ds.countries && c.name == d.name ==> c == d
    ensures WithMedalCounts(ds, GetAllByOrderBy(ds.countries, ByName, false))
         == Reverse(WithMedalCounts(ds, GetAllByOrderBy(ds.countries, ByName, true)))
  {
    var asc := GetAllByOrderBy(ds.countries, ByName, true);
    NameListingsReverse(ds.countries);
    var left := WithMedalCounts(ds, Reverse(asc));
    var right := Reverse(WithMedalCounts(ds, asc));
    assert |left| == |right|;
    forall i | 0 <= i < |left| ensures left[i] == right[i] {
      assert Reverse(asc)[i] == asc[|asc| - 1 - i];
    }
  }

  /** The staging list for `medals` is in ascending name order. */
  lemma StagingSortedByName(ds: Dataset)
    ensures Sorted(WithMedalCounts(ds, GetAllByOrderBy(ds.countries, ByName, true)), SummaryName, StrLe)
  {
    var countries := GetAllByOrderBy(ds.countries, ByName, true);
    CountriesOrdered(ds.countries, ByName, true);
    var s := WithMedalCounts(ds, countries);
    forall i, j | 0 <= i < j < |s| ensures StrLe(SummaryName(s[i]), SummaryName(s[j])) {
      assert Direction(StrLe, true)(CountryName(countries[i]), CountryName(countries[j]));
    }
  }
}
