/**
 * The two repositories the controller queries, as functions over an
 * in-memory dataset: exact-match lookups, counts and ordered listings.
 * Ordered listings use the stable SortBy, so equal keys keep dataset order.
 */
module Repositories {
  import opened Wrappers
  import opened Sorting
  import opened Orders
  import opened Model

  /** The elements of `s` satisfying `p`, in order. */
  function Filter<T(!new)>(s: seq<T>, p: T -> bool): (r: seq<T>)
    ensures |r| <= |s|
    ensures forall x :: x in r <==> x in s && p(x)
  {
    if s == [] then []
    else (if p(s[0]) then [s[0]] else []) + Filter(s[1..], p)
  }

  /** Filtering by a stronger condition keeps no more elements. */
  lemma {:induction false} FilterStronger<T(!new)>(s: seq<T>, p: T -> bool, q: T -> bool)
    requires forall x :: p(x) ==> q(x)
    ensures |Filter(s, p)| <= |Filter(s, q)|
  {
    if s != [] {
      FilterStronger(s[1..], p, q);
    }
  }

  // ---- CountryRepository ----

  /** `getByName`: the country with exactly this name, if any. */
  function GetByName(countries: seq<Country>, name: string): (r: Option<Country>)
    ensures r.None? <==> forall c :: c in countries ==> c.name != name
    ensures r.Some? ==> r.value in countries && r.value.name == name
  {
    if countries == [] then None
    else if countries[0].name == name then Some(countries[0])
    else GetByName(countries[1..], name)
  }

  datatype CountryOrder = ByName | ByGdp | ByPopulation

  /** `getAllByOrderBy{Name,Gdp,Population}{Asc,Desc}`. */
  function GetAllByOrderBy(countries: seq<Country>, order: CountryOrder, ascending: bool): seq<Country>
  {
    match order
    case ByName => SortBy(countries, CountryName, Direction(StrLe, ascending))
    case ByGdp => SortBy(countries, Gdp, Direction(NoneFirst(RealLe), ascending))
    case ByPopulation => SortBy(countries, Population, Direction(NoneFirst(IntLe), ascending))
  }

  /** Each country listing holds every country once and is ordered by its field in the requested direction. */
  lemma CountriesOrdered(countries: seq<Country>, order: CountryOrder, ascending: bool)
    ensures multiset(GetAllByOrderBy(countries, order, ascending)) == multiset(countries)
    ensures order == ByName ==>
      Sorted(GetAllByOrderBy(countries, order, ascending), CountryName, Direction(StrLe, ascending))
    ensures order == ByGdp ==>
      Sorted(GetAllByOrderBy(countries, order, ascending), Gdp, Direction(NoneFirst(RealLe), ascending))
    ensures order == ByPopulation ==>
      Sorted(GetAllByOrderBy(countries, order, ascending), Population, Direction(NoneFirst(IntLe), ascending))
  {
    StrLePreorder();
    NumericPreorders();
    match order
    case ByName =>
      DirectionPreorder(StrLe, ascending);
      SortBySorted(countries, CountryName, Direction(StrLe, ascending));
    case ByGdp =>
      DirectionPreorder(NoneFirst(RealLe), ascending);
      SortBySorted(countries, Gdp, Direction(NoneFirst(RealLe), ascending));
    case ByPopulation =>
      DirectionPreorder(NoneFirst(IntLe), ascending);
      SortBySorted(countries, Population, Direction(NoneFirst(IntLe), ascending));
  }

  /** The two name listings, as facts about order and contents only. */
  lemma NameListingsFacts(countries: seq<Country>)
    ensures multiset(GetAllByOrderBy(countries, ByName, false)) == multiset(countries)
    ensures multiset(Reverse(GetAllByOrderBy(countries, ByName, true))) == multiset(countries)
    ensures Sorted(GetAllByOrderBy(countries, ByName, false), CountryName, Direction(StrLe, false))
    ensures Sorted(Reverse(GetAllByOrderBy(countries, ByName, true)), CountryName, Direction(StrLe, false))
  {
    var asc := GetAllByOrderBy(countries, ByName, true);
    StrLePreorder();
    DirectionPreorder(StrLe, false);
    SortBySorted(countries, CountryName, StrLe);
    SortBySorted(countries, CountryName, Direction(StrLe, false));
    ReversePermutes(asc);
    ReverseSorted(asc, CountryName, StrLe);
  }

  lemma UniqueNamesKept(countries: seq<Country>, s: seq<Country>)
    requires multiset(s) == multiset(countries)
    requires forall c, d :: c in countries && d in countries && c.name == d.name ==> c == d
    ensures forall x, y :: x in s && y in s && CountryName(x) == CountryName(y) ==> x == y
  {
    forall x, y | x in s && y in s && CountryName(x) == CountryName(y) ensures x == y {
      assert x in multiset(s) && y in multiset(s);
      assert x in countries && y in countries;
    }
  }

  /**
   * When no two countries share a name, the descending name listing is the
   * ascending one reversed.
   */
  lemma NameListingsReverse(countries: seq<Country>)
    requires forall c, d :: c in countries && d in countries && c.name == d.name ==> c == d
    ensures GetAllByOrderBy(countries, ByName, false) == Reverse(GetAllByOrderBy(countries, ByName, true))
  {
    var desc := GetAllByOrderBy(countries, ByName, false);
    NameListingsFacts(countries);
    StrLeDescendingAntisymmetric();
    UniqueNamesKept(countries, desc);
    var r := Reverse(GetAllByOrderBy(countries, ByName, true));
    SortedUnique(desc, r, CountryName, Direction(StrLe, false));
  }

  // ---- GoldMedalRepository ----

  function OfCountry(medals: seq<GoldMedal>, country: string): seq<GoldMedal>
  {
    Filter(medals, (m: GoldMedal) => m.country == country)
  }

  function OfSeason(medals: seq<GoldMedal>, season: string): seq<GoldMedal>
  {
    Filter(medals, (m: GoldMedal) => m.season == season)
  }

  function OfCountryAndSeason(medals: seq<GoldMedal>, country: string, season: string): seq<GoldMedal>
  {
    Filter(medals, (m: GoldMedal) => m.country == country && m.season == season)
  }

  function OfCountryAndGender(medals: seq<GoldMedal>, country: string, gender: string): seq<GoldMedal>
  {
    Filter(medals, (m: GoldMedal) => m.country == country && m.gender == gender)
  }

  /** `countByCountry`. */
  function CountByCountry(medals: seq<GoldMedal>, country: string): nat
  {
    |OfCountry(medals, country)|
  }

  /** `countBySeason`. */
  function CountBySeason(medals: seq<GoldMedal>, season: string): nat
  {
    |OfSeason(medals, season)|
  }

  /** `countByCountryAndGender`. */
  function CountByCountryAndGender(medals: seq<GoldMedal>, country: string, gender: string): nat
  {
    |OfCountryAndGender(medals, country, gender)|
  }

  /** `getByCountryAndSeasonOrderByYearAsc`. */
  function GetByCountryAndSeasonOrderByYearAsc(medals: seq<GoldMedal>, country: string, season: string): seq<GoldMedal>
  {
    SortBy(OfCountryAndSeason(medals, country, season), Year, IntLe)
  }

  datatype MedalOrder = ByYear | BySeason | ByCity | ByAthleteName | ByEvent

  /** `getByCountryOrderBy{Year,Season,City,Name,Event}{Asc,Desc}`. */
  function GetByCountryOrderBy(medals: seq<GoldMedal>, country: string, order: MedalOrder, ascending: bool): seq<GoldMedal>
  {
    var own := OfCountry(medals, country);
    match order
    case ByYear => SortBy(own, Year, Direction(IntLe, ascending))
    case BySeason => SortBy(own, Season, Direction(StrLe, ascending))
    case ByCity => SortBy(own, City, Direction(StrLe, ascending))
    case ByAthleteName => SortBy(own, AthleteName, Direction(StrLe, ascending))
    case ByEvent => SortBy(own, Event, Direction(StrLe, ascending))
  }

  /**
   * A country's medal listing holds exactly that country's medals, each as
   * often as in the dataset, ordered by the field in the requested direction.
   */
  lemma MedalsOrdered(medals: seq<GoldMedal>, country: string, order: MedalOrder, ascending: bool)
    ensures multiset(GetByCountryOrderBy(medals, country, order, ascending)) == multiset(OfCountry(medals, country))
    ensures forall m :: m in GetByCountryOrderBy(medals, country, order, ascending) <==> m in medals && m.country == country
    ensures order == ByYear ==>
      Sorted(GetByCountryOrderBy(medals, country, order, ascending), Year, Direction(IntLe, ascending))
    ensures order == BySeason ==>
      Sorted(GetByCountryOrderBy(medals, country, order, ascending), Season, Direction(StrLe, ascending))
    ensures order == ByCity ==>
      Sorted(GetByCountryOrderBy(medals, country, order, ascending), City, Direction(StrLe, ascending))
    ensures order == ByAthleteName ==>
      Sorted(GetByCountryOrderBy(medals, country, order, ascending), AthleteName, Direction(StrLe, ascending))
    ensures order == ByEvent ==>
      Sorted(GetByCountryOrderBy(medals, country, order, ascending), Event, Direction(StrLe, ascending))
  {
    var own := OfCountry(medals, country);
    var r := GetByCountryOrderBy(medals, country, order, ascending);
    forall m ensures m in r <==> m in own {
      assert m in r <==> m in multiset(r);
      assert m in own <==> m in multiset(own);
    }
    StrLePreorder();
    NumericPreorders();
    DirectionPreorder(IntLe, ascending);
    DirectionPreorder(StrLe, ascending);
    match order
    case ByYear => SortBySorted(own, Year, Direction(IntLe, ascending));
    case BySeason => SortBySorted(own, Season, Direction(StrLe, ascending));
    case ByCity => SortBySorted(own, City, Direction(StrLe, ascending));
    case ByAthleteName => SortBySorted(own, AthleteName, Direction(StrLe, ascending));
    case ByEvent => SortBySorted(own, Event, Direction(StrLe, ascending));
  }

  /**
   * The season listing used for the detail statistics holds exactly the
   * country's medals of that season, by ascending year.
   */
  lemma SeasonWinsOrdered(medals: seq<GoldMedal>, country: string, season: string)
    ensures multiset(GetByCountryAndSeasonOrderByYearAsc(medals, country, season)) == multiset(OfCountryAndSeason(medals, country, season))
    ensures |GetByCountryAndSeasonOrderByYearAsc(medals, country, season)| == |OfCountryAndSeason(medals, country, season)|
    ensures forall m :: m in GetByCountryAndSeasonOrderByYearAsc(medals, country, season)
              <==> m in medals && m.country == country && m.season == season
    ensures Sorted(GetByCountryAndSeasonOrderByYearAsc(medals, country, season), Year, IntLe)
  {
    var own := OfCountryAndSeason(medals, country, season);
    var r := GetByCountryAndSeasonOrderByYearAsc(medals, country, season);
    forall m ensures m in r <==> m in own {
      assert m in r <==> m in multiset(r);
      assert m in own <==> m in multiset(own);
    }
    NumericPreorders();
    SortBySorted(own, Year, IntLe);
  }

  /** A country's medals in a season are among all medals of that season. */
  lemma CountryShareOfSeason(medals: seq<GoldMedal>, country: string, season: string)
    ensures |OfCountryAndSeason(medals, country, season)| <= CountBySeason(medals, season)
  {
    FilterStronger(medals, (m: GoldMedal) => m.country == country && m.season == season,
                   (m: GoldMedal) => m.season == season);
  }
}
